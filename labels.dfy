/**
 * The four categorical label lookups (travel mode, visa type, country, port).
 * Each indexes a read-only table owned elsewhere; a code missing from the
 * table raises `KeyError`, which is not caught and so fails the caller,
 * unlike the date converters, which turn every failure into a null.
 */
module Labels {

  /** Outcome of indexing a table: the label, or the `KeyError` the lookup raises. */
  datatype Lookup = Label(text: string) | KeyError

  /** `table[key]` with no default. */
  function LookupLabel<K>(table: map<K, string>, key: K): (r: Lookup)
    ensures r.Label? <==> key in table
    ensures r.Label? ==> r.text == table[key]
  {
    if key in table then Label(table[key]) else KeyError
  }

  /** `travel_udf`: the mode of travel for a travel-mode code. */
  function TravelLabel<K>(travel: map<K, string>, x: K): (r: Lookup)
    ensures x in travel ==> r == Label(travel[x])
    ensures x !in travel ==> r == KeyError
  {
    LookupLabel(travel, x)
  }

  /** `visa_udf`: the visa category for a visa code. */
  function VisaLabel<K>(visa: map<K, string>, x: K): (r: Lookup)
    ensures x in visa ==> r == Label(visa[x])
    ensures x !in visa ==> r == KeyError
  {
    LookupLabel(visa, x)
  }

  /** `country_udf`: the country name for a country code. */
  function CountryLabel<K>(country: map<K, string>, x: K): (r: Lookup)
    ensures x in country ==> r == Label(country[x])
    ensures x !in country ==> r == KeyError
  {
    LookupLabel(country, x)
  }

  /** `port_udf`: the port name for a port code. */
  function PortLabel<K>(port: map<K, string>, x: K): (r: Lookup)
    ensures x in port ==> r == Label(port[x])
    ensures x !in port ==> r == KeyError
  {
    LookupLabel(port, x)
  }

  /**
   * A lookup depends only on the key's own entry: two tables that agree on
   * the key (both lack it, or map it to the same label) give the same outcome,
   * so no other entry ever stands in as a default.
   */
  lemma LookupDependsOnlyOnEntry<K>(t1: map<K, string>, t2: map<K, string>, key: K)
    requires (key !in t1 && key !in t2) || (key in t1 && key in t2 && t1[key] == t2[key])
    ensures LookupLabel(t1, key) == LookupLabel(t2, key)
  {
  }
}
