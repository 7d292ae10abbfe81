/**
 * Part B's `ExactMatch` (rule numbers, signature type, hex text) and the
 * `ExactMatches` container the parser fills.
 */
module CuckooExactMatches {
  /** `SignatureType`; the enumerators' numbers (OTHER 0, CONTENT 1, PCRE 2) play no part here. */
  datatype SignatureType = Other | Content | Pcre

  /** `setSignatureType`'s mapping: "content", "pcre", anything else. */
  function TypeFromName(name: string): SignatureType
  {
    if name == "content" then Content else if name == "pcre" then Pcre else Other
  }

  /** `getSignatureType`. */
  function TypeName(t: SignatureType): string
  {
    match t
    case Content => "content"
    case Pcre => "pcre"
    case Other => "other"
  }

  /** Reading a type back after setting it by name gives the name, or "other" for an unknown name. */
  lemma NameRoundTrip(name: string)
    ensures TypeName(TypeFromName(name)) == if name == "content" || name == "pcre" then name else "other"
  {
  }

  /** Setting a type by its own name gives the type back. */
  lemma TypeRoundTrip(t: SignatureType)
    ensures TypeFromName(TypeName(t)) == t
  {
  }

  /**
   * One exact match. The rule numbers are kept as a set: the header
   * declares a vector, but every caller builds it from a `std::set` and
   * reads it back into one.
   */
  datatype ExactMatch = ExactMatch(rulesNumber: set<int>, signatureType: SignatureType, exactMatch: string)

  /** The default constructor: no rules, type OTHER, empty text. */
  const DefaultExactMatch := ExactMatch({}, Other, "")

  /** The constructor taking the type by name. */
  function NamedExactMatch(rules: set<int>, typeName: string, text: string): (e: ExactMatch)
    ensures e.rulesNumber == rules && e.exactMatch == text
    ensures TypeName(e.signatureType) == if typeName == "content" || typeName == "pcre" then typeName else "other"
  {
    NameRoundTrip(typeName);
    ExactMatch(rules, TypeFromName(typeName), text)
  }

  /** `setSignatureType` on a copy: only the type changes, and reading it back gives the name or "other". */
  function SetSignatureType(e: ExactMatch, newType: string): (r: ExactMatch)
    ensures r.rulesNumber == e.rulesNumber && r.exactMatch == e.exactMatch
    ensures TypeName(r.signatureType) == if newType == "content" || newType == "pcre" then newType else "other"
  {
    NameRoundTrip(newType);
    e.(signatureType := TypeFromName(newType))
  }

  /** The container: the vector of (copies of) inserted exact matches. */
  class ExactMatches {
    var exactMatches: seq<ExactMatch>

    constructor ()
      ensures exactMatches == []
    {
      exactMatches := [];
    }

    /** `insert`: a copy goes at the end; earlier entries stay as they were. */
    method Insert(toInsert: ExactMatch)
      modifies this
      ensures exactMatches == old(exactMatches) + [toInsert]
    {
      exactMatches := exactMatches + [toInsert];
    }
  }
}
