/**
 The string operations that the service relies on, over Unicode code points:
 trimming, lower-casing, prefixes and joining.
 */
module Text {

  /** `unicode.IsSpace`: the code points that `strings.TrimSpace` removes. */
  predicate IsSpace(c: char) {
    var n := c as int;
    9 <= n <= 13 || n == 0x20 || n == 0x85 || n == 0xA0 || n == 0x1680 || 0x2000 <= n <= 0x200A ||
    n == 0x2028 || n == 0x2029 || n == 0x202F || n == 0x205F || n == 0x3000
  }

  predicate IsDash(c: char) { c == '-' }

  predicate IsSlash(c: char) { c == '/' }

  predicate IsLetter(c: char) { 'a' <= c <= 'z' }

  predicate IsAlnum(c: char) { IsLetter(c) || '0' <= c <= '9' }

  /** `strings.TrimLeft`. */
  function TrimLeft(s: string, cut: char -> bool): (r: string)
    ensures |r| <= |s| && (r != "" ==> r[|r| - 1] == s[|s| - 1])
    ensures r != "" ==> !cut(r[0])
  {
    if s != "" && cut(s[0]) then TrimLeft(s[1..], cut) else s
  }

  /** `strings.TrimRight`. */
  function TrimRight(s: string, cut: char -> bool): (r: string)
    ensures |r| <= |s| && (r != "" ==> r[0] == s[0])
    ensures r != "" ==> !cut(r[|r| - 1])
  {
    if s != "" && cut(s[|s| - 1]) then TrimRight(s[..|s| - 1], cut) else s
  }

  /** `strings.Trim`. */
  function Trim(s: string, cut: char -> bool): (r: string)
    ensures |r| <= |s|
    ensures r != "" ==> !cut(r[0]) && !cut(r[|r| - 1])
  {
    TrimRight(TrimLeft(s, cut), cut)
  }

  function TrimSpace(s: string): (r: string)
    ensures |r| <= |s|
    ensures r != "" ==> !IsSpace(r[0]) && !IsSpace(r[|r| - 1])
  {
    Trim(s, IsSpace)
  }

  lemma TrimFixpoint(s: string, cut: char -> bool)
    requires s == "" || (!cut(s[0]) && !cut(s[|s| - 1]))
    ensures Trim(s, cut) == s
  {
  }

  /**
   `unicode.ToLower` on ASCII letters and on the two other code points whose
   lower case is ASCII (dotted capital I and the Kelvin sign); every other code
   point maps to itself.
   */
  function LowerChar(c: char): char {
    if 'A' <= c <= 'Z' then ((c as int) + 32) as char
    else if c as int == 0x130 then 'i'
    else if c as int == 0x212A then 'k'
    else c
  }

  function ToLower(s: string): (r: string)
    ensures |r| == |s| && forall i :: 0 <= i < |s| ==> r[i] == LowerChar(s[i])
  {
    seq(|s|, i requires 0 <= i < |s| => LowerChar(s[i]))
  }

  /** Trimming takes cut characters off both ends and nothing else. */
  lemma TrimExact(s: string, cut: char -> bool)
    ensures exists a, b :: 0 <= a <= b <= |s| && Trim(s, cut) == s[a..b] &&
                           (forall i :: 0 <= i < a ==> cut(s[i])) && forall i :: b <= i < |s| ==> cut(s[i])
  {
    var t := TrimLeft(s, cut);
    var a := LeftExact(s, cut);
    var b := RightExact(t, cut);
    assert Trim(s, cut) == s[a..a + b];
    forall i | a + b <= i < |s|
      ensures cut(s[i])
    {
      assert s[i] == t[i - a];
    }
  }

  lemma {:induction false} LeftExact(s: string, cut: char -> bool) returns (a: nat)
    ensures a <= |s| && TrimLeft(s, cut) == s[a..] && forall i :: 0 <= i < a ==> cut(s[i])
    decreases |s|
  {
    a := 0;
    if s != "" && cut(s[0]) {
      a := LeftExact(s[1..], cut);
      assert s[1..][a..] == s[a + 1..];
      assert forall i :: 1 <= i < a + 1 ==> s[i] == s[1..][i - 1];
      a := a + 1;
    }
  }

  lemma {:induction false} RightExact(s: string, cut: char -> bool) returns (b: nat)
    ensures b <= |s| && TrimRight(s, cut) == s[..b] && forall i :: b <= i < |s| ==> cut(s[i])
    decreases |s|
  {
    b := |s|;
    if s != "" && cut(s[|s| - 1]) {
      b := RightExact(s[..|s| - 1], cut);
      assert s[..|s| - 1][..b] == s[..b];
      assert forall i :: b <= i < |s| - 1 ==> s[i] == s[..|s| - 1][i];
    }
  }

  /** The 26 capitals become the 26 small letters, and no other ASCII character changes. */
  lemma LettersLowered(i: nat)
    requires i < 128
    ensures LowerChar(i as char) == if 65 <= i < 91 then (i + 32) as char else i as char
  {
  }

  /** `strings.HasPrefix`. */
  predicate HasPrefix(s: string, prefix: string) {
    prefix <= s
  }

  /** `strings.Join` with a hyphen. */
  function JoinDash(parts: seq<string>): string {
    if parts == [] then ""
    else if |parts| == 1 then parts[0]
    else parts[0] + "-" + JoinDash(parts[1..])
  }

  /** `^[a-z][a-z0-9._-]{1,127}$`, the pattern of application and menu codes. */
  predicate IsCode(s: string) {
    2 <= |s| <= 128 && IsLetter(s[0]) &&
    forall i :: 0 <= i < |s| ==> IsAlnum(s[i]) || s[i] == '.' || s[i] == '_' || s[i] == '-'
  }

  /** A code of small letters has between 2 and 128 of them. */
  lemma CodeLengths(s: string)
    requires forall i :: 0 <= i < |s| ==> 'a' <= s[i] <= 'z'
    ensures IsCode(s) <==> 1 < |s| < 129
  {
  }

  /** The 25 code points that trimming removes. */
  lemma SpacesAre(c: char)
    ensures IsSpace(c) <==>
      c as int in {9, 10, 11, 12, 13, 32, 133, 160, 5760, 8192, 8193, 8194, 8195, 8196, 8197, 8198, 8199, 8200,
                   8201, 8202, 8232, 8233, 8239, 8287, 12288}
  {
  }

  /** Where `x` first occurs in `s`. */
  ghost predicate FirstAt(s: seq<string>, x: string, i: nat) {
    i < |s| && s[i] == x && x !in s[..i]
  }

  /** No value occurs twice. */
  ghost predicate Distinct(s: seq<string>) {
    forall i, j :: 0 <= i < j < |s| ==> s[i] != s[j]
  }

  /** `out` lists the values of `s` that satisfy `keep`, without repeats, by first occurrence. */
  ghost predicate Deduplicated(s: seq<string>, keep: string -> bool, out: seq<string>) {
    && Distinct(out)
    && (forall x :: x in out <==> x in s && keep(x))
    && forall i, j, k, l :: 0 <= i < j < |out| && FirstAt(s, out[i], k) && FirstAt(s, out[j], l) ==> k < l
  }

  predicate NotEmpty(s: string) { s != "" }

  function TrimmedAll(values: seq<string>): (r: seq<string>)
    ensures |r| == |values| && forall i :: 0 <= i < |values| ==> r[i] == TrimSpace(values[i])
  {
    seq(|values|, i requires 0 <= i < |values| => TrimSpace(values[i]))
  }

  /** The wanted tenants or identifiers of a list: trimmed and not empty. */
  function Wanted(values: seq<string>): (r: seq<string>)
    ensures forall x :: x in r <==> x in TrimmedAll(values) && NotEmpty(x)
  {
    if values == [] then []
    else
      var front := Wanted(values[..|values| - 1]);
      var x := TrimSpace(values[|values| - 1]);
      assert TrimmedAll(values) == TrimmedAll(values[..|values| - 1]) + [x];
      if x == "" then front else front + [x]
  }

  lemma FirstAtFront(s: seq<string>, y: string, x: string, i: nat)
    ensures x in s ==> (FirstAt(s + [y], x, i) <==> FirstAt(s, x, i))
    ensures x !in s && FirstAt(s + [y], x, i) ==> x == y && i == |s|
  {
    var t := s + [y];
    if i <= |s| {
      assert t[..i] == s[..i];
    }
  }

  /** A value that is not wanted or already listed changes nothing. */
  lemma DeduplicatedSkip(s: seq<string>, keep: string -> bool, out: seq<string>, x: string)
    requires Deduplicated(s, keep, out) && (!keep(x) || x in out)
    ensures Deduplicated(s + [x], keep, out)
  {
    forall i, j, k, l | 0 <= i < j < |out| && FirstAt(s + [x], out[i], k) && FirstAt(s + [x], out[j], l)
      ensures k < l
    {
      assert out[i] in out && out[j] in out;
      FirstAtFront(s, x, out[i], k);
      FirstAtFront(s, x, out[j], l);
    }
  }

  /** A wanted new value goes to the end. */
  lemma DeduplicatedAdd(s: seq<string>, keep: string -> bool, out: seq<string>, x: string)
    requires Deduplicated(s, keep, out) && keep(x) && x !in out
    ensures Deduplicated(s + [x], keep, out + [x])
  {
    var out' := out + [x];
    forall i, j, k, l | 0 <= i < j < |out'| && FirstAt(s + [x], out'[i], k) && FirstAt(s + [x], out'[j], l)
      ensures k < l
    {
      assert out'[i] == out[i] && out[i] in out;
      FirstAtFront(s, x, out[i], k);
      if j < |out| {
        assert out'[j] == out[j] && out[j] in out;
        FirstAtFront(s, x, out[j], l);
      } else {
        FirstAtFront(s, x, x, l);
      }
    }
  }
}
