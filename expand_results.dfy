/** `SearchParams.ExpandResults`: which hits of a search are returned
    expanded (the request's `fetch` attribute). Parsing an item id needs the
    request's SOAP context, so the parser is a parameter. */
module ExpandRules {
  import opened Wrappers
  import opened JavaStrings

  /** The four shared modes, or a rule that expands one item, kept with the
      text it was parsed from. */
  datatype ExpandResults<I> = NONE | FIRST | HITS | ALL | ItemRule(rep: string, itemId: I)
  {
    /** `toString()`: the text the mode is written as; a rule for one item
        is written as the text it was parsed from. */
    function ToString(): (r: string)
      ensures this.ItemRule? ==> r == this.rep
      ensures !this.ItemRule? ==> IsKeyword(r)
    {
      match this
      case NONE => "none"
      case FIRST => "first"
      case HITS => "hits"
      case ALL => "all"
      case ItemRule(rep, _) => rep
    }
  }

  datatype ServiceError = InvalidRequest(message: string)

  /** `value.trim().toLowerCase()`. */
  function Normalize(value: string): string
  {
    ToLower(Trim(value))
  }

  /** The seven words `valueOf` reads as one of the shared modes. */
  predicate IsKeyword(v: string)
  {
    v == "none" || v == "0" || v == "false" || v == "first" || v == "1" || v == "hits" || v == "all"
  }

  /** `ExpandResults.valueOf`. */
  function ValueOf<I>(value: Option<string>, itemIdOf: string -> Option<I>): (r: Result<ExpandResults<I>, ServiceError>)
    ensures value.None? ==> r == Success(NONE)
    ensures r.Success? && r.value.ItemRule? ==>
      value.Some? && r.value.rep == Normalize(value.value) && itemIdOf(r.value.rep) == Some(r.value.itemId)
    ensures r.Failure? ==>
      && value.Some? && itemIdOf(Normalize(value.value)).None?
      && r.error == InvalidRequest("invalid 'fetch' value: " + Normalize(value.value))
    ensures value.Some? && IsKeyword(Normalize(value.value)) ==> r.Success? && !r.value.ItemRule?
    ensures value.Some? && !IsKeyword(Normalize(value.value)) ==>
      var v := Normalize(value.value);
      && (r.Failure? <==> itemIdOf(v).None?)
      && (r.Success? ==> r.value == ItemRule(v, itemIdOf(v).value))
  {
    if value.None? then Success(NONE) else ValueOfNormalized(Normalize(value.value), itemIdOf)
  }

  /** `valueOf` once the text is trimmed and lower-cased. */
  function ValueOfNormalized<I>(v: string, itemIdOf: string -> Option<I>): (r: Result<ExpandResults<I>, ServiceError>)
    ensures IsKeyword(v) ==> r.Success? && !r.value.ItemRule?
    ensures !IsKeyword(v) ==>
      && (r.Failure? <==> itemIdOf(v).None?)
      && (r.Success? ==> r.value == ItemRule(v, itemIdOf(v).value))
      && (r.Failure? ==> r.error == InvalidRequest("invalid 'fetch' value: " + v))
  {
    if v == "none" || v == "0" || v == "false" then Success(NONE)
    else if v == "first" || v == "1" then Success(FIRST)
    else if v == "hits" then Success(HITS)
    else if v == "all" then Success(ALL)
    else match itemIdOf(v)
      case Some(iid) => Success(ItemRule(v, iid))
      case None => Failure(InvalidRequest("invalid 'fetch' value: " + v))
  }

  /** Case and surrounding blanks do not matter: a value means what its
      trimmed lower-case form means. */
  lemma ValueOfIgnoresCaseAndBlanks<I>(value: string, itemIdOf: string -> Option<I>)
    ensures ValueOf(Some(value), itemIdOf) == ValueOf(Some(Normalize(value)), itemIdOf)
  {
    var n := Normalize(value);
    LowerTrimIdempotent(value);
    ValueOfUnfold(value, itemIdOf);
    ValueOfUnfold(n, itemIdOf);
  }

  lemma ValueOfUnfold<I>(value: string, itemIdOf: string -> Option<I>)
    ensures ValueOf(Some(value), itemIdOf) == ValueOfNormalized(Normalize(value), itemIdOf)
  {
  }

  /** A word without upper-case letters or blanks at its ends is already
      in normal form. */
  lemma NormalizeOfNormal(s: string)
    requires |s| == 0 || (!IsBlank(s[0]) && !IsBlank(s[|s| - 1]))
    requires forall i :: 0 <= i < |s| ==> !IsAsciiUpper(s[i])
    ensures Normalize(s) == s
  {
    TrimOfTrimmed(s);
    ToLowerOfLower(s);
  }

  /** Each shared mode is read back from the text it is written as. */
  lemma ValueOfModeName<I>(m: ExpandResults<I>, itemIdOf: string -> Option<I>)
    requires !m.ItemRule?
    ensures ValueOf(Some(m.ToString()), itemIdOf) == Success(m)
  {
    NormalizeOfNormal(m.ToString());
    ValueOfUnfold(m.ToString(), itemIdOf);
  }

  /** "0" and "false" also select NONE, "1" also selects FIRST. */
  lemma ValueOfAlias<I>(alias: string, itemIdOf: string -> Option<I>)
    requires alias == "0" || alias == "false" || alias == "1"
    ensures ValueOf(Some(alias), itemIdOf) == Success(if alias == "1" then FIRST else NONE)
  {
    NormalizeOfNormal(alias);
    ValueOfUnfold(alias, itemIdOf);
  }

  /** A rule for one item is read back from its own text. */
  lemma ItemRuleRoundTrip<I>(value: string, itemIdOf: string -> Option<I>)
    requires ValueOf(Some(value), itemIdOf).Success? && ValueOf(Some(value), itemIdOf).value.ItemRule?
    ensures ValueOf(Some(ValueOf(Some(value), itemIdOf).value.rep), itemIdOf) == ValueOf(Some(value), itemIdOf)
  {
    ValueOfIgnoresCaseAndBlanks(value, itemIdOf);
  }

  /** What `encodeParams` writes for a rule (`toString`) is read back by
      `parse` (`valueOf`) as the same rule. */
  lemma FetchRoundTrip<I>(value: string, itemIdOf: string -> Option<I>)
    requires ValueOf(Some(value), itemIdOf).Success?
    ensures ValueOf(Some(ValueOf(Some(value), itemIdOf).value.ToString()), itemIdOf)
      == ValueOf(Some(value), itemIdOf)
  {
    var x := ValueOf(Some(value), itemIdOf).value;
    if x.ItemRule? {
      ItemRuleRoundTrip(value, itemIdOf);
    } else {
      ValueOfModeName(x, itemIdOf);
    }
  }
}
