/** The two string primitives the roster relies on: whitespace trimming and
    case folding, as JavaScript's `String.prototype.trim` and `toLowerCase`. */
module Text {

  /** White space and line terminators as JavaScript's `trim` strips them. */
  predicate IsWhite(c: char) {
    || c == ' ' || c == '\t' || c == '\n' || c == '\r'
    || c == '\U{000B}' || c == '\U{000C}' || c == '\U{00A0}' || c == '\U{1680}'
    || ('\U{2000}' <= c <= '\U{200A}')
    || c == '\U{2028}' || c == '\U{2029}' || c == '\U{202F}' || c == '\U{205F}'
    || c == '\U{3000}' || c == '\U{FEFF}'
  }

  /** Every character of `s` is white space (so the empty string is blank). */
  predicate Blank(s: string) {
    forall i :: 0 <= i < |s| ==> IsWhite(s[i])
  }

  /** How many white characters `s` starts with. */
  function WhiteBefore(s: string): (n: nat)
    ensures n <= |s|
    ensures forall k :: 0 <= k < n ==> IsWhite(s[k])
    ensures n == |s| || !IsWhite(s[n])
  {
    if s != [] && IsWhite(s[0]) then
      var m := WhiteBefore(s[1..]);
      assert forall k :: 0 < k <= m ==> s[k] == s[1..][k - 1];
      1 + m
    else 0
  }

  /** Where the white characters `s` ends with begin. */
  function WhiteAfter(s: string): (n: nat)
    ensures n <= |s|
    ensures forall k :: n <= k < |s| ==> IsWhite(s[k])
    ensures n == 0 || !IsWhite(s[n - 1])
  {
    if s != [] && IsWhite(s[|s| - 1]) then
      var t := s[..|s| - 1];
      var m := WhiteAfter(t);
      assert forall k :: m <= k < |t| ==> s[k] == t[k];
      assert m > 0 ==> s[m - 1] == t[m - 1];
      m
    else |s|
  }

  /** `s` without its leading and trailing white space. */
  function Trim(s: string): (r: string)
    ensures |r| <= |s|
  {
    var j := WhiteAfter(s);
    var i := WhiteBefore(s[..j]);
    s[i..j]
  }

  /** What trimming leaves: the slice `s[i..j]` whose outside is blank and whose
      ends are not white. */
  lemma TrimShape(s: string)
    ensures var r := Trim(s);
      && (exists i, j :: 0 <= i <= j <= |s| && r == s[i..j] && Blank(s[..i]) && Blank(s[j..]))
      && (r == [] || (!IsWhite(r[0]) && !IsWhite(r[|r| - 1])))
  {
    var j := WhiteAfter(s);
    var i := WhiteBefore(s[..j]);
    var r := s[i..j];
    assert forall k :: 0 <= k < i ==> s[..i][k] == s[..j][k];
    assert Blank(s[..i]);
    assert forall k :: j <= k < |s| ==> s[j..][k - j] == s[k];
    assert Blank(s[j..]);
    assert 0 <= i <= j <= |s| && Trim(s) == s[i..j];
    if r != [] {
      assert r[0] == s[..j][i];
      assert r[|r| - 1] == s[j - 1];
    }
  }

  /** The empty-after-trim test the forms apply: a string trims to nothing
      exactly when it is blank. */
  lemma TrimEmptyIffBlank(s: string)
    ensures Trim(s) == [] <==> Blank(s)
  {
    var j := WhiteAfter(s);
    var i := WhiteBefore(s[..j]);
    if Trim(s) == [] {
      assert i == j;
      assert forall k :: 0 <= k < j ==> s[k] == s[..j][k];
    } else {
      assert s[i] == s[..j][i];
    }
  }

  /** Trimming a trimmed string changes nothing. */
  lemma TrimIdempotent(s: string)
    ensures Trim(Trim(s)) == Trim(s)
  {
    var r := Trim(s);
    TrimShape(s);
    if r != [] {
      assert WhiteAfter(r) == |r|;
      assert r[..|r|] == r;
      assert WhiteBefore(r) == 0;
    }
  }

  /** Upper-case letters that `toLowerCase` folds by adding 32: ASCII and Latin-1. */
  predicate IsUpper(c: char) {
    ('A' <= c <= 'Z') || ('\U{00C0}' <= c <= '\U{00DE}' && c != '\U{00D7}')
  }

  function LowerChar(c: char): (r: char)
    ensures !IsUpper(r)
    ensures !IsUpper(c) ==> r == c
    ensures IsUpper(c) ==> r as int == c as int + 32
  {
    if IsUpper(c) then (c as int + 32) as char else c
  }

  /** `s` with every upper-case letter folded to lower case. */
  function ToLower(s: string): (r: string)
    ensures |r| == |s|
    ensures forall i :: 0 <= i < |s| ==> !IsUpper(r[i])
    ensures forall i :: 0 <= i < |s| && !IsUpper(s[i]) ==> r[i] == s[i]
    ensures forall i :: 0 <= i < |s| && IsUpper(s[i]) ==> r[i] as int == s[i] as int + 32
  {
    seq(|s|, i requires 0 <= i < |s| => LowerChar(s[i]))
  }

  /** The roster's duplicate-name test: equal after case folding. */
  predicate SameIgnoringCase(a: string, b: string) {
    ToLower(a) == ToLower(b)
  }
}
