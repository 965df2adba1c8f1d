/** The string operations of Python that the ingestion code relies on:
    `str.isspace` / `str.strip`, `str.join`, `+=` accumulation and the
    substring test `needle in hay`. `Split`, Python's one-character
    `str.split`, is not called by the code; it is the inverse of the
    paragraph join of `parse_docx`, used to state what that join keeps. */
module Text {

  /** Python's `str.isspace` for a single character: the characters that
      `str.strip()` with no argument removes. */
  predicate IsSpace(c: char) {
    c == ' ' || c == '\t' || c == '\n' || c == '\r' || c == '\U{0B}' || c == '\U{0C}'
    || ('\U{1C}' <= c <= '\U{1F}') || c == '\U{85}' || c == '\U{A0}' || c == '\U{1680}'
    || ('\U{2000}' <= c <= '\U{200A}') || c == '\U{2028}' || c == '\U{2029}'
    || c == '\U{202F}' || c == '\U{205F}' || c == '\U{3000}'
  }

  /** Every character of `s` is whitespace (the empty string included). */
  predicate Blank(s: string) {
    forall i :: 0 <= i < |s| ==> IsSpace(s[i])
  }

  /** `s.lstrip()`: the suffix of `s` left after dropping leading whitespace. */
  function TrimStart(s: string): (r: string)
    ensures |r| <= |s| && r == s[|s| - |r|..]
    ensures Blank(s[..|s| - |r|])
    ensures r == [] || !IsSpace(r[0])
  {
    if s != [] && IsSpace(s[0]) then
      var r := TrimStart(s[1..]);
      assert s[..|s| - |r|] == [s[0]] + s[1..][..|s| - 1 - |r|];
      r
    else
      s
  }

  /** `s.rstrip()`: the prefix of `s` left after dropping trailing whitespace. */
  function TrimEnd(s: string): (r: string)
    ensures |r| <= |s| && r == s[..|r|]
    ensures Blank(s[|r|..])
    ensures r == [] || !IsSpace(r[|r| - 1])
  {
    if s != [] && IsSpace(s[|s| - 1]) then
      var r := TrimEnd(s[..|s| - 1]);
      assert s[|r|..] == s[..|s| - 1][|r|..] + [s[|s| - 1]];
      r
    else
      s
  }

  /** `s.strip()`. */
  function Strip(s: string): string {
    TrimEnd(TrimStart(s))
  }

  /** `s.strip()` is falsy exactly when `s` consists of whitespace only. */
  lemma StripEmptyIffBlank(s: string)
    ensures Strip(s) == "" <==> Blank(s)
  {
    var t := TrimStart(s);
    if Strip(s) == "" {
      assert t[0..] == t;
      assert t == [];
      assert s[..|s|] == s;
    }
  }

  /** Python's `sep.join(parts)`. */
  function Join(parts: seq<string>, sep: string): string {
    if |parts| == 0 then ""
    else if |parts| == 1 then parts[0]
    else parts[0] + sep + Join(parts[1..], sep)
  }

  /** Where `parts[i]` starts inside `Join(parts, sep)`: every earlier part
      followed by one separator. */
  function Offset(parts: seq<string>, sep: string, i: nat): nat
    requires i <= |parts|
  {
    if i == 0 then 0 else |parts[0]| + |sep| + Offset(parts[1..], sep, i - 1)
  }

  /** Every part of a join appears verbatim, in order, at its offset. */
  lemma {:induction false} JoinAt(parts: seq<string>, sep: string, i: nat)
    requires i < |parts|
    ensures Offset(parts, sep, i) + |parts[i]| <= |Join(parts, sep)|
    ensures Join(parts, sep)[Offset(parts, sep, i)..Offset(parts, sep, i) + |parts[i]|] == parts[i]
  {
    if |parts| > 1 {
      var rest := parts[1..];
      var r := Join(rest, sep);
      var j := parts[0] + sep + r;
      assert Join(parts, sep) == j;
      if i == 0 {
        assert j[..|parts[0]|] == parts[0];
      } else {
        JoinAt(rest, sep, i - 1);
        var k := |parts[0]| + |sep|;
        var o := Offset(rest, sep, i - 1);
        assert rest[i - 1] == parts[i];
        assert j[k + o..k + o + |parts[i]|] == r[o..o + |parts[i]|];
      }
    }
  }

  /** Between two consecutive parts of a join stands exactly one separator. */
  lemma {:induction false} JoinSeparatorAt(parts: seq<string>, sep: string, i: nat)
    requires i + 1 < |parts|
    ensures Offset(parts, sep, i + 1) == Offset(parts, sep, i) + |parts[i]| + |sep|
    ensures Offset(parts, sep, i + 1) <= |Join(parts, sep)|
    ensures Join(parts, sep)[Offset(parts, sep, i) + |parts[i]|..Offset(parts, sep, i + 1)] == sep
  {
    var rest := parts[1..];
    var r := Join(rest, sep);
    var j := parts[0] + sep + r;
    assert Join(parts, sep) == j;
    var k := |parts[0]| + |sep|;
    if i == 0 {
      assert Offset(rest, sep, 0) == 0;
      assert j[|parts[0]|..k] == sep;
    } else {
      JoinSeparatorAt(rest, sep, i - 1);
      assert rest[i - 1] == parts[i];
      var o := Offset(rest, sep, i - 1);
      assert j[k + o + |parts[i]|..k + Offset(rest, sep, i)] == r[o + |parts[i]|..Offset(rest, sep, i)];
    }
  }

  /** A join ends with its last part: nothing follows it. */
  lemma {:induction false} JoinLength(parts: seq<string>, sep: string)
    requires |parts| >= 1
    ensures |Join(parts, sep)| == Offset(parts, sep, |parts| - 1) + |parts[|parts| - 1]|
  {
    if |parts| > 1 {
      var rest := parts[1..];
      JoinLength(rest, sep);
      assert Join(parts, sep) == parts[0] + sep + Join(rest, sep);
      assert Offset(parts, sep, |parts| - 1) == |parts[0]| + |sep| + Offset(rest, sep, |rest| - 1);
      assert rest[|rest| - 1] == parts[|parts| - 1];
    }
  }

  /** The joined string is whitespace-only exactly when every part is, provided
      the separator is itself whitespace. */
  lemma {:induction false} BlankJoin(parts: seq<string>, sep: string)
    requires Blank(sep)
    ensures Blank(Join(parts, sep)) <==> forall i :: 0 <= i < |parts| ==> Blank(parts[i])
  {
    if |parts| > 1 {
      var rest := parts[1..];
      BlankJoin(rest, sep);
      var j := Join(parts, sep);
      assert j == parts[0] + sep + Join(rest, sep);
      if Blank(j) {
        forall i | 0 <= i < |parts| ensures Blank(parts[i]) {
          if i == 0 {
            forall k | 0 <= k < |parts[0]| ensures IsSpace(parts[0][k]) {
              assert j[k] == parts[0][k];
            }
          } else {
            forall k | 0 <= k < |Join(rest, sep)| ensures IsSpace(Join(rest, sep)[k]) {
              assert j[|parts[0]| + |sep| + k] == Join(rest, sep)[k];
            }
            assert rest[i - 1] == parts[i];
          }
        }
      }
      if forall i :: 0 <= i < |parts| ==> Blank(parts[i]) {
        assert Blank(parts[0]);
        assert forall i :: 0 <= i < |rest| ==> Blank(rest[i]) by {
          forall i | 0 <= i < |rest| ensures Blank(rest[i]) {
            assert rest[i] == parts[i + 1];
          }
        }
      }
    }
  }

  /** The text accumulated by `text += part` over `parts`, in order. */
  function Concat(parts: seq<string>): string {
    if parts == [] then "" else Concat(parts[..|parts| - 1]) + parts[|parts| - 1]
  }

  /** Concatenation read from the front: the first part, then the rest. */
  lemma {:induction false} ConcatCons(parts: seq<string>)
    requires parts != []
    ensures Concat(parts) == parts[0] + Concat(parts[1..])
  {
    if |parts| > 1 {
      var init := parts[..|parts| - 1];
      ConcatCons(init);
      assert init[1..] == parts[1..][..|parts[1..]| - 1];
    } else {
      assert parts[..0] == [];
      assert parts[1..] == [];
    }
  }

  /** Accumulating with `+=` is joining with the empty separator. */
  lemma {:induction false} ConcatIsJoinEmpty(parts: seq<string>)
    ensures Concat(parts) == Join(parts, "")
  {
    if |parts| == 1 {
      assert parts[..0] == [];
    } else if |parts| > 1 {
      ConcatCons(parts);
      ConcatIsJoinEmpty(parts[1..]);
    }
  }

  /** Python's `s.split(c)` for a one-character separator `c`; the inverse of
      the join at line 76 of main_full_final_exonascope.py. */
  function Split(s: string, c: char): (r: seq<string>)
    ensures |r| >= 1
    ensures forall i :: 0 <= i < |r| ==> c !in r[i]
  {
    if s == [] then [""]
    else
      var rest := Split(s[1..], c);
      if s[0] == c then [""] + rest
      else [[s[0]] + rest[0]] + rest[1..]
  }

  /** Splitting a piece that contains no separator, followed by a separator. */
  lemma {:induction false} SplitFront(p: string, c: char, rest: string)
    requires c !in p
    ensures Split(p + [c] + rest, c) == [p] + Split(rest, c)
  {
    var s := p + [c] + rest;
    if p == [] {
      assert s[1..] == rest;
    } else {
      assert s[1..] == p[1..] + [c] + rest;
      SplitFront(p[1..], c, rest);
      assert [p[0]] + p[1..] == p;
    }
  }

  /** A piece without the separator splits into itself. */
  lemma {:induction false} SplitWhole(p: string, c: char)
    requires c !in p
    ensures Split(p, c) == [p]
  {
    if p != [] {
      SplitWhole(p[1..], c);
      assert [p[0]] + p[1..] == p;
    }
  }

  /** Splitting undoes joining, when no part contains the separator and there
      is at least one part. */
  lemma {:induction false} SplitJoin(parts: seq<string>, c: char)
    requires |parts| >= 1
    requires forall i :: 0 <= i < |parts| ==> c !in parts[i]
    ensures Split(Join(parts, [c]), c) == parts
  {
    if |parts| == 1 {
      SplitWhole(parts[0], c);
    } else {
      SplitJoin(parts[1..], c);
      SplitFront(parts[0], c, Join(parts[1..], [c]));
      assert [parts[0]] + parts[1..] == parts;
    }
  }

  /** Joining undoes splitting, for every string. */
  lemma {:induction false} JoinSplit(s: string, c: char)
    ensures Join(Split(s, c), [c]) == s
  {
    if s != [] {
      var rest := Split(s[1..], c);
      JoinSplit(s[1..], c);
      if s[0] == c {
        assert ([""] + rest)[1..] == rest;
      } else {
        var r := [[s[0]] + rest[0]] + rest[1..];
        if |rest| > 1 {
          assert r[1..] == rest[1..];
          assert Join(rest, [c]) == rest[0] + [c] + Join(rest[1..], [c]);
        }
      }
    }
  }

  /** `needle` occurs in `hay` starting at index `i`. */
  predicate OccursAt(hay: string, needle: string, i: int) {
    0 <= i && i + |needle| <= |hay| && hay[i..i + |needle|] == needle
  }

  /** `needle` occurs somewhere in `hay`. */
  ghost predicate Occurs(hay: string, needle: string) {
    exists i :: OccursAt(hay, needle, i)
  }

  /** Python's `needle in hay`, computed by trying every start position. */
  function Contains(hay: string, needle: string): bool
    decreases |hay|
  {
    if |hay| < |needle| then false
    else hay[..|needle|] == needle || Contains(hay[1..], needle)
  }

  /** An occurrence at `i` is found by the substring test. */
  lemma {:induction false} ContainsFinds(hay: string, needle: string, i: nat)
    requires OccursAt(hay, needle, i)
    ensures Contains(hay, needle)
    decreases i
  {
    if i > 0 && hay[..|needle|] != needle {
      assert hay[1..][i - 1..i - 1 + |needle|] == hay[i..i + |needle|];
      ContainsFinds(hay[1..], needle, i - 1);
    }
  }

  /** The substring test fails when one of the needle's characters does not
      occur in `hay` at all. */
  lemma NotContainsChar(hay: string, needle: string, k: nat)
    requires k < |needle| && needle[k] !in hay
    ensures !Contains(hay, needle)
  {
    if Contains(hay, needle) {
      var i := ContainsWitness(hay, needle);
    }
  }

  /** A successful substring test has an occurrence behind it. */
  lemma {:induction false} ContainsWitness(hay: string, needle: string) returns (i: nat)
    requires Contains(hay, needle)
    ensures OccursAt(hay, needle, i)
    decreases |hay|
  {
    if hay[..|needle|] == needle {
      i := 0;
    } else {
      var k := ContainsWitness(hay[1..], needle);
      assert hay[1..][k..k + |needle|] == hay[k + 1..k + 1 + |needle|];
      i := k + 1;
    }
  }

  /** The substring test answers exactly whether some occurrence exists. */
  lemma ContainsIff(hay: string, needle: string)
    ensures Contains(hay, needle) <==> Occurs(hay, needle)
  {
    if Contains(hay, needle) {
      var i := ContainsWitness(hay, needle);
    }
    forall i | OccursAt(hay, needle, i) ensures Contains(hay, needle) {
      ContainsFinds(hay, needle, i);
    }
  }
}
