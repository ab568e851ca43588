/** Strings as the host language trims them. */
module Text {
  /** White space and line terminators. */
  predicate IsSpace(c: char) {
    var u := c as int;
    9 <= u <= 13 || u == 32 || u == 0xA0 || u == 0x1680 || 0x2000 <= u <= 0x200A || u == 0x2028 || u == 0x2029
    || u == 0x202F || u == 0x205F || u == 0x3000 || u == 0xFEFF
  }

  function Trim(s: string): string
    decreases |s|
  {
    if s != "" && IsSpace(s[0]) then Trim(s[1..])
    else if s != "" && IsSpace(s[|s| - 1]) then Trim(s[..|s| - 1])
    else s
  }

  predicate AllSpace(s: string) { forall i :: 0 <= i < |s| ==> IsSpace(s[i]) }

  /** Trimming takes away the white space at both ends and nothing else. */
  lemma {:induction false} TrimExact(s: string) returns (before: string, after: string)
    ensures s == before + Trim(s) + after && AllSpace(before) && AllSpace(after)
    ensures Trim(s) != "" ==> !IsSpace(Trim(s)[0]) && !IsSpace(Trim(s)[|Trim(s)| - 1])
    decreases |s|
  {
    before, after := "", "";
    if s != "" && IsSpace(s[0]) {
      before, after := TrimExact(s[1..]);
      before := MoreBefore(s, before, Trim(s), after);
    } else if s != "" && IsSpace(s[|s| - 1]) {
      before, after := TrimExact(s[..|s| - 1]);
      after := MoreAfter(s, before, Trim(s), after);
    }
  }

  lemma MoreBefore(s: string, before: string, middle: string, after: string) returns (longer: string)
    requires s != "" && IsSpace(s[0]) && s[1..] == before + middle + after && AllSpace(before)
    ensures s == longer + middle + after && AllSpace(longer)
  {
    longer := [s[0]] + before;
    assert s == [s[0]] + s[1..];
  }

  lemma MoreAfter(s: string, before: string, middle: string, after: string) returns (longer: string)
    requires s != "" && IsSpace(s[|s| - 1]) && s[..|s| - 1] == before + middle + after && AllSpace(after)
    ensures s == before + middle + longer && AllSpace(longer)
  {
    longer := after + [s[|s| - 1]];
    assert s == s[..|s| - 1] + [s[|s| - 1]];
  }
}
