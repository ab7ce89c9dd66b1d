/** The validation rules the controllers use, on one form field each. A
    request whose fields do not all pass is sent back with errors and changes
    nothing. */
module Validation {
  import opened Domain

  /** The characters PHP's `trim` strips by default. */
  predicate Trimmed(c: char) {
    c == ' ' || c == '\t' || c == '\n' || c == '\r' || c == '\0' || c == '\U{B}'
  }

  /** `ltrim`: the string without its leading trimmed characters. */
  function TrimStart(s: string): (r: string)
    ensures |r| <= |s|
    ensures r == [] || !Trimmed(r[0])
  {
    if |s| > 0 && Trimmed(s[0]) then TrimStart(s[1..]) else s
  }

  /** `rtrim`: the string without its trailing trimmed characters. */
  function TrimEnd(s: string): (r: string)
    ensures |r| <= |s|
    ensures r == [] || !Trimmed(r[|r| - 1])
  {
    if |s| > 0 && Trimmed(s[|s| - 1]) then TrimEnd(s[..|s| - 1]) else s
  }

  /** `trim`. */
  function Trim(s: string): string {
    TrimEnd(TrimStart(s))
  }

  /** The validator's test for an empty string, `trim($value) === ''`, holds
      exactly for strings made only of trimmed characters. */
  lemma BlankIffAllTrimmed(s: string)
    ensures Trim(s) == [] <==> forall i :: 0 <= i < |s| ==> Trimmed(s[i])
  {
    TrimStartEmpty(s);
    var t := TrimStart(s);
    TrimEndEmpty(t);
  }

  lemma {:induction false} TrimStartEmpty(s: string)
    ensures TrimStart(s) == [] <==> forall i :: 0 <= i < |s| ==> Trimmed(s[i])
  {
    if |s| > 0 && Trimmed(s[0]) {
      TrimStartEmpty(s[1..]);
      assert forall i :: 0 < i < |s| ==> s[i] == s[1..][i - 1];
    }
  }

  lemma {:induction false} TrimEndEmpty(s: string)
    ensures TrimEnd(s) == [] <==> forall i :: 0 <= i < |s| ==> Trimmed(s[i])
  {
    if |s| > 0 && Trimmed(s[|s| - 1]) {
      TrimEndEmpty(s[..|s| - 1]);
      assert forall i :: 0 <= i < |s| - 1 ==> s[i] == s[..|s| - 1][i];
    }
  }

  /** `required` on a string: sent, and not empty once trimmed. The
      validator skips every rule that is not implicit on a value that is
      empty once trimmed, so such a value passes `nullable` fields. */
  predicate Required(f: Field<string>) {
    f.Filled? && Trim(f.value) != []
  }

  /** `required|string|max:n`: required and at most `n` characters. */
  predicate RequiredString(f: Field<string>, max: nat) {
    Required(f) && |f.value| <= max
  }

  /** `required|string|min:n`: required and at least `n` characters. */
  predicate RequiredStringAtLeast(f: Field<string>, min: nat) {
    Required(f) && min <= |f.value|
  }

  /** `nullable|string`, with `max:n` when `max` is given: may be left out or
      empty; otherwise at most `n` characters, unless it is empty once trimmed
      and so not checked at all. */
  predicate NullableString(f: Field<string>, max: Option<nat>) {
    match f
    case Absent | Blank => true
    case Malformed => false
    case Filled(s) => Trim(s) == [] || max.None? || |s| <= max.value
  }

  /** A required string is never empty, and never made only of spaces, tabs,
      line breaks, NUL or vertical tabs; a string with any other character
      passes `required`. */
  lemma RequiredRejectsBlank(f: Field<string>)
    ensures Required(f) ==> 0 < |f.value|
    ensures f.Filled? ==> (Required(f) <==> exists i :: 0 <= i < |f.value| && !Trimmed(f.value[i]))
  {
    if f.Filled? {
      BlankIffAllTrimmed(f.value);
    }
  }

  /** `required|integer|min:lo|max:hi`. */
  predicate RequiredIntBetween(f: Field<int>, lo: int, hi: int) {
    f.Filled? && lo <= f.value <= hi
  }

  /** `nullable|integer|min:lo`. */
  predicate NullableIntAtLeast(f: Field<int>, lo: int) {
    match f
    case Absent | Blank => true
    case Malformed => false
    case Filled(n) => lo <= n
  }

  /** `required|numeric|min:lo|max:hi`. */
  predicate RequiredNumberBetween(f: Field<real>, lo: real, hi: real) {
    f.Filled? && lo <= f.value <= hi
  }

  /** `nullable|date`, and `after:now` when `after` is given: strictly later. */
  predicate NullableDate(f: Field<Time>, after: Option<Time>) {
    match f
    case Absent | Blank => true
    case Malformed => false
    case Filled(t) => after.None? || t > after.value
  }

  /** `boolean` without `nullable`: a field left out passes, but a null one
      does not. */
  predicate Boolean(f: Field<bool>) {
    f.Absent? || f.Filled?
  }

  /** `confirmed`: the `_confirmation` field holds the same value. */
  predicate Confirmed(f: Field<string>, confirmation: Field<string>) {
    f.Filled? && confirmation == f
  }

  /** `in:text,video`. */
  function LessonTypeOf(s: string): (r: Option<LessonType>)
    ensures r == Some(Text) <==> s == "text"
    ensures r == Some(Video) <==> s == "video"
  {
    if s == "text" then Some(Text) else if s == "video" then Some(Video) else None
  }
}
