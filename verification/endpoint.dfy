/** Endpoint identifiers (src/bpv7/endpoint.rs): an opaque string wrapped for
    type safety, compared and hashed by exact string equality. */
module Endpoint {
  import opened Text

  const DTN_SCHEME_PREFIX: string := "dtn://"
  const NULL_EID: string := "dtn:none"

  datatype EndpointId = EndpointId(id: string)
  {
    /** `as_str`, and `Display`, which writes the wrapped string unchanged. */
    function AsStr(): (s: string)
      ensures EndpointId(s) == this
    {
      id
    }

    /** True when the identifier uses the `dtn://` scheme. */
    predicate IsDtnScheme()
    {
      StartsWith(id, DTN_SCHEME_PREFIX)
    }

    /** True for the reserved null endpoint and for the empty identifier. */
    predicate IsNull()
    {
      id == NULL_EID || id == ""
    }
  }

  /** `EndpointId::new`, `EndpointId::from` and both `From` conversions. */
  function FromString(s: string): (e: EndpointId)
    ensures e.AsStr() == s
  {
    EndpointId(s)
  }

  /** Two identifiers are equal exactly when their strings are. */
  lemma EqualityIsStringEquality(a: string, b: string)
    ensures FromString(a) == FromString(b) <==> a == b
  {
  }

  /** `is_dtn_scheme` holds exactly for strings that begin with `dtn://`. */
  lemma DtnSchemeIffPrefix(s: string)
    ensures FromString(s).IsDtnScheme() <==> |s| >= 6 && s[..6] == "dtn://"
  {
  }

  /** `is_null` holds exactly for `dtn:none` and the empty string. */
  lemma NullIffReserved(s: string)
    ensures FromString(s).IsNull() <==> s == "dtn:none" || |s| == 0
  {
  }

  /** No identifier is both null and of the `dtn://` scheme. */
  lemma NullIsNotDtnScheme(e: EndpointId)
    ensures !(e.IsNull() && e.IsDtnScheme())
  {
  }
}
