/** Field clean-up of the extension: `String.prototype.trim` and the length clamp, on UTF-16 code units. */
module CaptureText {

  type CodeUnit = n: nat | n < 0x10000
  type Text = seq<CodeUnit>

  /** ECMAScript WhiteSpace and LineTerminator. */
  predicate IsSpace(c: CodeUnit) {
    || 0x09 <= c <= 0x0D || c == 0x20 || c == 0xA0 || c == 0x1680 || 0x2000 <= c <= 0x200A
    || c == 0x2028 || c == 0x2029 || c == 0x202F || c == 0x205F || c == 0x3000 || c == 0xFEFF
  }

  function TrimStart(s: Text): (r: Text)
    ensures |r| <= |s| && (r != [] ==> !IsSpace(r[0]))
    ensures s != [] && !IsSpace(s[0]) ==> r == s
  {
    if s != [] && IsSpace(s[0]) then TrimStart(s[1..]) else s
  }

  function TrimEnd(s: Text): (r: Text)
    ensures r <= s && (r != [] ==> !IsSpace(r[|r| - 1]))
    ensures s != [] && !IsSpace(s[|s| - 1]) ==> r == s
    ensures s != [] && !IsSpace(s[0]) ==> r != []
  {
    if s != [] && IsSpace(s[|s| - 1]) then TrimEnd(s[..|s| - 1]) else s
  }

  function Trim(s: Text): Text {
    TrimEnd(TrimStart(s))
  }

  function ClampText(value: Text, max: nat): Text {
    var text := Trim(value);
    if |text| > max then text[..max] else text
  }

  /** The code units of `WhiteSpace` and `LineTerminator` in sections 12.2 and 12.3 of ECMA-262. */
  lemma {:induction false} SpacesAre(c: CodeUnit)
    ensures IsSpace(c) <==> c in {
      0x0009, 0x000A, 0x000B, 0x000C, 0x000D, 0x0020, 0x00A0, 0x1680, 0x2000, 0x2001, 0x2002, 0x2003, 0x2004, 0x2005,
      0x2006, 0x2007, 0x2008, 0x2009, 0x200A, 0x2028, 0x2029, 0x202F, 0x205F, 0x3000, 0xFEFF}
  {}

  ghost predicate OnlySpaceAround(s: Text, i: nat, j: nat) {
    i <= j <= |s| && forall k | 0 <= k < i || j <= k < |s| :: IsSpace(s[k])
  }

  /** `t` is `s` without the white space at its ends. */
  ghost predicate IsTrim(s: Text, t: Text) {
    Trimmed(t) && exists i: nat, j: nat :: OnlySpaceAround(s, i, j) && t == s[i..j]
  }

  /** Trimming takes off the white space at both ends and nothing else. */
  lemma {:induction false} TrimTakesOnlySpace(s: Text)
    ensures IsTrim(s, Trim(s))
  {
    var i := StartOf(s);
    var n := EndOf(s[i..]);
    assert forall k | i + n <= k < |s| :: s[k] == s[i..][k - i];
    assert OnlySpaceAround(s, i, i + n) && Trim(s) == s[i..i + n];
    TrimmedIsFixed(s);
  }

  /** A text has one trim. */
  lemma {:induction false} TrimIsUnique(s: Text, t: Text)
    requires IsTrim(s, t)
    ensures t == Trim(s)
  {
    TrimTakesOnlySpace(s);
    var i: nat, j: nat :| OnlySpaceAround(s, i, j) && t == s[i..j];
    var k: nat, l: nat :| OnlySpaceAround(s, k, l) && Trim(s) == s[k..l];
    if i < j { assert t[0] == s[i] && t[j - i - 1] == s[j - 1]; }
    if k < l { assert Trim(s)[0] == s[k] && Trim(s)[l - k - 1] == s[l - 1]; }
  }

  /** The trim where it fits, and otherwise its first `max` code units. */
  ghost predicate IsClamped(value: Text, max: nat, clean: Text) {
    exists t :: IsTrim(value, t) && clean == if |t| <= max then t else t[..max]
  }

  lemma {:induction false} ClampIs(value: Text, max: nat)
    ensures IsClamped(value, max, ClampText(value, max))
  {
    TrimTakesOnlySpace(value);
    assert IsTrim(value, Trim(value));
  }

  lemma {:induction false} StartOf(s: Text) returns (i: nat)
    ensures i <= |s| && TrimStart(s) == s[i..] && forall k | 0 <= k < i :: IsSpace(s[k])
  {
    i := 0;
    if s != [] && IsSpace(s[0]) {
      i := StartOf(s[1..]);
      assert s[1..][i..] == s[i + 1..];
      assert forall k | 0 < k < i + 1 :: s[k] == s[1..][k - 1];
      i := i + 1;
    }
  }

  lemma {:induction false} EndOf(s: Text) returns (j: nat)
    ensures j <= |s| && TrimEnd(s) == s[..j] && forall k | j <= k < |s| :: IsSpace(s[k])
  {
    j := |s|;
    if s != [] && IsSpace(s[|s| - 1]) {
      var rest := s[..|s| - 1];
      j := EndOf(rest);
      assert rest[..j] == s[..j] && forall k | j <= k < |rest| :: s[k] == rest[k];
    }
  }

  ghost predicate Trimmed(s: Text) {
    s != [] ==> !IsSpace(s[0]) && !IsSpace(s[|s| - 1])
  }

  lemma {:induction false} TrimmedIsFixed(s: Text)
    ensures Trimmed(Trim(s))
    ensures Trimmed(s) ==> Trim(s) == s
    ensures |Trim(s)| <= |s|
  {}

  /** Cut at `max`, the text can end in white space; then a second clamp still changes it. */
  ghost predicate CutLeavesSpace(value: Text, max: nat) {
    var text := Trim(value);
    0 < max < |text| && IsSpace(text[max - 1])
  }

  /** Two clamps reach a fixed point; one does so exactly when the cut does not fall behind white space. */
  lemma {:induction false} ClampSettles(value: Text, max: nat)
    ensures var once := ClampText(value, max);
      var twice := ClampText(once, max);
      && ClampText(twice, max) == twice
      && (twice == once <==> !CutLeavesSpace(value, max))
  {
    var once := ClampText(value, max);
    TrimmedIsFixed(value);
    TrimmedIsFixed(once);
    TrimmedIsFixed(Trim(once));
    if CutLeavesSpace(value, max) {
      assert once[|once| - 1] == Trim(value)[max - 1];
      assert |once| == max && IsSpace(once[max - 1]);
    } else {
      assert Trimmed(once);
    }
  }

  /** One clamp is not always enough: "a b" cut to two characters keeps its trailing space. */
  lemma {:induction false} ClampOnceIsNotEnough()
    ensures exists value, max ::
      ClampText(ClampText(value, max), max) != ClampText(value, max)
  {
    var value: Text := [0x61, 0x20, 0x62];
    assert Trimmed(value);
    TrimmedIsFixed(value);
    assert CutLeavesSpace(value, 2);
    ClampSettles(value, 2);
    assert ClampText(ClampText(value, 2), 2) != ClampText(value, 2);
  }

  /** A value with visible content keeps some of it, whatever the limit of at least one. */
  lemma {:induction false} ClampKeepsContent(value: Text, max: nat)
    requires max > 0
    ensures ClampText(value, max) != [] <==> Trim(value) != []
    ensures |ClampText(value, max)| <= max
    ensures Trim(ClampText(value, max)) != [] <==> Trim(value) != []
  {}
}
