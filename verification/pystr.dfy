/** The few Python `str` operations the responder relies on: `isspace`,
    `strip`, `lower` and `join`, over strings of Unicode scalar values
    (Python's code points). */
module PyStr {

  /** Python's `str.isspace()` for one character: the code points Python
      treats as whitespace (and therefore removes in `strip()`). */
  predicate IsSpace(c: char) {
    || c == ' '
    || ('\t' <= c && c <= '\r')                   // \t \n \v \f \r
    || ('\U{1C}' <= c && c <= '\U{1F}')           // file, group, record, unit separators
    || c == '\U{85}' || c == '\U{A0}' || c == '\U{1680}'
    || ('\U{2000}' <= c && c <= '\U{200A}')
    || c == '\U{2028}' || c == '\U{2029}' || c == '\U{202F}'
    || c == '\U{205F}' || c == '\U{3000}'
  }

  /** The string is empty or only whitespace; by `Strip`'s contract this is
      Python's `not s.strip()`. */
  predicate IsBlank(s: string) {
    forall k :: 0 <= k < |s| ==> IsSpace(s[k])
  }

  /** `s.lstrip()`: drops the leading whitespace and keeps a suffix of `s`. */
  function TrimStart(s: string): (r: string)
    ensures |r| <= |s| && r == s[|s| - |r|..]
    ensures forall k :: 0 <= k < |s| - |r| ==> IsSpace(s[k])
    ensures r == [] || !IsSpace(r[0])
  {
    if s != [] && IsSpace(s[0]) then TrimStart(s[1..]) else s
  }

  /** `s.rstrip()`: drops the trailing whitespace and keeps a prefix of `s`. */
  function TrimEnd(s: string): (r: string)
    ensures |r| <= |s| && r == s[..|r|]
    ensures forall k :: |r| <= k < |s| ==> IsSpace(s[k])
    ensures r == [] || !IsSpace(r[|r| - 1])
  {
    if s != [] && IsSpace(s[|s| - 1]) then TrimEnd(s[..|s| - 1]) else s
  }

  /** `s.strip()`: the slice of `s` between its leading and trailing
      whitespace. It is empty exactly when `s` is all whitespace, and
      otherwise starts and ends with a non-whitespace character. */
  function Strip(s: string): (r: string)
    ensures |r| <= |TrimStart(s)| <= |s|
    ensures r == s[|s| - |TrimStart(s)|..|s| - |TrimStart(s)| + |r|]
    ensures r == [] <==> IsBlank(s)
    ensures r != [] ==> !IsSpace(r[0]) && !IsSpace(r[|r| - 1])
  {
    var t := TrimStart(s);
    assert t == s[|s| - |t|..];
    TrimEnd(t)
  }

  /** `strip()` removes whitespace and nothing else: everything before and
      everything after the kept slice is whitespace, so the slice is the
      longest one that starts and ends on non-whitespace. */
  lemma StripDropsOnlySpace(s: string)
    ensures var lead, r := |s| - |TrimStart(s)|, Strip(s);
      && lead + |r| <= |s| && r == s[lead..lead + |r|]
      && (forall k :: 0 <= k < lead ==> IsSpace(s[k]))
      && (forall k :: lead + |r| <= k < |s| ==> IsSpace(s[k]))
  {
    var t := TrimStart(s);
    var lead := |s| - |t|;
    assert t == s[lead..];
    SpaceAfterSlice(s, lead, TrimEnd(t));
  }

  /** Whitespace after `r` in the suffix `s[lead..]` is whitespace after
      `r` in `s`. */
  lemma SpaceAfterSlice(s: string, lead: nat, r: string)
    requires lead <= |s|
    requires |r| <= |s| - lead && r == s[lead..][..|r|]
    requires forall k :: |r| <= k < |s| - lead ==> IsSpace(s[lead..][k])
    ensures lead + |r| <= |s| && r == s[lead..lead + |r|]
    ensures forall k :: lead + |r| <= k < |s| ==> IsSpace(s[k])
  {
    var t := s[lead..];
    forall k | lead + |r| <= k < |s|
      ensures IsSpace(s[k])
    {
      assert s[k] == t[k - lead];
    }
  }


  /** `c.lower()` on the ASCII letters. */
  function LowerChar(c: char): (d: char)
    ensures 'A' <= c <= 'Z' ==> 'a' <= d <= 'z' && d as int - c as int == 32
    ensures !('A' <= c <= 'Z') ==> d == c
  {
    if 'A' <= c <= 'Z' then (c as int + 32) as char else c
  }

  /** `s.lower()`, character by character on the ASCII letters. */
  function Lower(s: string): (r: string)
    ensures |r| == |s|
    ensures forall k :: 0 <= k < |s| ==> r[k] == LowerChar(s[k])
  {
    if s == [] then [] else [LowerChar(s[0])] + Lower(s[1..])
  }

  /** `sep.join(parts)`: the parts in order with `sep` between neighbours. */
  function Join(sep: string, parts: seq<string>): string
  {
    if parts == [] then ""
    else if |parts| == 1 then parts[0]
    else parts[0] + sep + Join(sep, parts[1..])
  }

  /** The text is "nan" in any mix of upper and lower case. */
  predicate IsNanSpelling(s: string) {
    |s| == 3 && (s[0] == 'n' || s[0] == 'N') && (s[1] == 'a' || s[1] == 'A') && (s[2] == 'n' || s[2] == 'N')
  }

  /** Python's `s.lower() == "nan"` holds exactly for the eight spellings of
      "nan" in upper and lower case. */
  lemma {:induction false} LowerIsNan(s: string)
    ensures Lower(s) == "nan" <==> IsNanSpelling(s)
  {
    if Lower(s) == "nan" {
      assert LowerChar(s[0]) == 'n' && LowerChar(s[1]) == 'a' && LowerChar(s[2]) == 'n';
    }
    if |s| == 3 && (s[0] == 'n' || s[0] == 'N') && (s[1] == 'a' || s[1] == 'A') && (s[2] == 'n' || s[2] == 'N') {
      assert Lower(s) == [LowerChar(s[0]), LowerChar(s[1]), LowerChar(s[2])];
    }
  }

  /** The joined text starts with the first part and ends with the last. */
  lemma {:induction false} JoinEnds(sep: string, parts: seq<string>)
    requires parts != []
    ensures parts[0] <= Join(sep, parts)
    ensures var j, last := Join(sep, parts), parts[|parts| - 1];
      |last| <= |j| && j[|j| - |last|..] == last
  {
    if |parts| == 1 {
      assert Join(sep, parts) == parts[0];
    } else {
      var rest := parts[1..];
      var tail := Join(sep, rest);
      assert Join(sep, parts) == parts[0] + sep + tail;
      assert (parts[0] + sep + tail)[..|parts[0]|] == parts[0];
      JoinEnds(sep, rest);
      assert rest[|rest| - 1] == parts[|parts| - 1];
      SuffixOfConcat(parts[0] + sep, tail, rest[|rest| - 1]);
    }
  }

  /** A suffix of `b` is a suffix of `a + b`. */
  lemma SuffixOfConcat(a: string, b: string, e: string)
    requires |e| <= |b| && b[|b| - |e|..] == e
    ensures var c := a + b; |e| <= |c| && c[|c| - |e|..] == e
  {
    var c := a + b;
    assert forall k :: |c| - |e| <= k < |c| ==> c[k] == b[k - |a|];
  }
}
