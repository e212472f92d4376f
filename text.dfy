/**
 * The parts of Python's `str` that the crawler and the query filter use:
 * `isspace`, `strip`, `split()` with no separator, `lower`, `startswith`
 * and the substring test `t in s`.
 */
module Text {

  /** Python's `str.isspace`: the ASCII whitespace, the information
      separators U+001C..U+001F (next to the space) and the Unicode space
      characters. */
  predicate IsSpace(c: char) {
    || ('\t' <= c <= '\r')
    || ('\U{1C}' <= c <= ' ')
    || c == '\U{85}' || c == '\U{A0}' || c == '\U{1680}'
    || ('\U{2000}' <= c <= '\U{200A}')
    || c == '\U{2028}' || c == '\U{2029}' || c == '\U{202F}' || c == '\U{205F}' || c == '\U{3000}'
  }

  predicate AllSpace(s: string) {
    forall i | 0 <= i < |s| :: IsSpace(s[i])
  }

  /** The first index at or after `i` whose character is not whitespace, or
      `|s|`. */
  function SkipSpace(s: string, i: nat): (k: nat)
    requires i <= |s|
    ensures i <= k <= |s|
    ensures forall x | i <= x < k :: IsSpace(s[x])
    ensures k < |s| ==> !IsSpace(s[k])
    decreases |s| - i
  {
    if i == |s| || !IsSpace(s[i]) then i else SkipSpace(s, i + 1)
  }

  /** The index just past the last character before `j` that is not
      whitespace, or 0. */
  function SkipSpaceBack(s: string, j: nat): (k: nat)
    requires j <= |s|
    ensures k <= j
    ensures forall x | k <= x < j :: IsSpace(s[x])
    ensures 0 < k ==> !IsSpace(s[k - 1])
  {
    if j == 0 || !IsSpace(s[j - 1]) then j else SkipSpaceBack(s, j - 1)
  }

  /** `s.strip()`: the middle of `s` left when the whitespace at both ends
      is cut off. */
  function Strip(s: string): (r: string)
    ensures exists a | 0 <= a <= |s| - |r| ::
      s[a..a + |r|] == r && AllSpace(s[..a]) && AllSpace(s[a + |r|..])
    ensures r != [] ==> !IsSpace(r[0]) && !IsSpace(r[|r| - 1])
  {
    var a := SkipSpace(s, 0);
    var b := SkipSpaceBack(s, |s|);
    if a == |s| then
      assert AllSpace(s[..a]);
      []
    else
      assert a < b;
      var r := s[a..b];
      assert r[0] == s[a] && r[|r| - 1] == s[b - 1];
      assert AllSpace(s[..a]) && AllSpace(s[a + |r|..]);
      r
  }

  /** `strip` leaves nothing exactly when the string is all whitespace, and
      otherwise leaves a string that neither starts nor ends with whitespace. */
  lemma StripEmptyIff(s: string)
    ensures Strip(s) == [] <==> AllSpace(s)
    ensures Strip(s) != [] ==> !IsSpace(Strip(s)[0]) && !IsSpace(Strip(s)[|Strip(s)| - 1])
  {
    var a := SkipSpace(s, 0);
    if a < |s| {
      assert !IsSpace(s[a]);
    }
  }

  /** Python's `str.lower` on the ASCII letters. */
  function LowerChar(c: char): char {
    if 'A' <= c <= 'Z' then (c as int + 32) as char else c
  }

  /** `s.lower()` */
  function Lower(s: string): (r: string)
    ensures |r| == |s|
    ensures forall i | 0 <= i < |s| :: r[i] == LowerChar(s[i])
  {
    seq(|s|, i requires 0 <= i < |s| => LowerChar(s[i]))
  }

  /** Lowering a character never produces or removes whitespace. */
  lemma LowerCharSpace(c: char)
    ensures IsSpace(LowerChar(c)) <==> IsSpace(c)
  {
  }

  /** Lowering a letter never produces or removes whitespace. */
  lemma LowerKeepsSpace(s: string)
    ensures AllSpace(Lower(s)) <==> AllSpace(s)
  {
    forall i | 0 <= i < |s| ensures IsSpace(Lower(s)[i]) <==> IsSpace(s[i]) {
      assert Lower(s)[i] == LowerChar(s[i]);
    }
  }

  predicate NoSpace(w: string) {
    forall i | 0 <= i < |w| :: !IsSpace(w[i])
  }

  /** The first index at or after `i` whose character is whitespace, or `|s|`. */
  function SkipWord(s: string, i: nat): (k: nat)
    requires i <= |s|
    ensures i <= k <= |s|
    ensures forall x | i <= x < k :: !IsSpace(s[x])
    ensures k < |s| ==> IsSpace(s[k])
    decreases |s| - i
  {
    if i == |s| || IsSpace(s[i]) then i else SkipWord(s, i + 1)
  }

  /** The words of `s.split()` that start at or after `i`: skip whitespace,
      take the run up to the next whitespace, and go on from there. */
  function SplitFrom(s: string, i: nat): seq<string>
    requires i <= |s|
    decreases |s| - i
  {
    var a := SkipSpace(s, i);
    if a == |s| then []
    else
      var b := SkipWord(s, a);
      [s[a..b]] + SplitFrom(s, b)
  }

  /** `s.split()` */
  function Split(s: string): seq<string> {
    SplitFrom(s, 0)
  }

  /** `s[i..j]` is a maximal run of non-whitespace characters of `s`: a word
      of `s` in the sense of `split()`. */
  predicate WordAt(s: string, i: int, j: int) {
    && 0 <= i < j <= |s| && NoSpace(s[i..j])
    && (i == 0 || IsSpace(s[i - 1])) && (j == |s| || IsSpace(s[j]))
  }

  /** No run of non-whitespace characters crosses position `i`. */
  predicate Boundary(s: string, i: nat) {
    i == 0 || i == |s| || (i < |s| && (IsSpace(s[i - 1]) || IsSpace(s[i])))
  }

  /** The words of `s.split()` are exactly the maximal runs of non-whitespace
      characters of `s`. */
  lemma SplitIsWords(s: string, w: string)
    ensures w in Split(s) <==> exists i, j :: WordAt(s, i, j) && s[i..j] == w
  {
    if w in Split(s) {
      SplitFromSound(s, 0, w);
    }
    if exists i, j :: WordAt(s, i, j) && s[i..j] == w {
      var i, j :| WordAt(s, i, j) && s[i..j] == w;
      SplitFromComplete(s, 0, i, j);
    }
  }

  /** Every word that `SplitFrom` yields from a boundary is a maximal run. */
  lemma {:induction false} SplitFromSound(s: string, i: nat, w: string)
    requires i <= |s| && Boundary(s, i) && w in SplitFrom(s, i)
    ensures exists a, b :: i <= a && WordAt(s, a, b) && s[a..b] == w
    decreases |s| - i
  {
    var a := SkipSpace(s, i);
    var b := SkipWord(s, a);
    assert a < |s|;
    if w == s[a..b] {
      assert b > a;
      if a > 0 && a == i {
        assert IsSpace(s[a - 1]);
      }
      assert WordAt(s, a, b);
    } else {
      assert w in SplitFrom(s, b);
      SplitFromSound(s, b, w);
    }
  }

  /** Every maximal run at or after a boundary is a word that `SplitFrom`
      yields. */
  lemma {:induction false} SplitFromComplete(s: string, i: nat, a: int, b: int)
    requires i <= |s| && Boundary(s, i) && i <= a && WordAt(s, a, b)
    ensures s[a..b] in SplitFrom(s, i)
    decreases |s| - i
  {
    var a0 := SkipSpace(s, i);
    assert s[a..b][0] == s[a];
    assert a0 <= a;
    var b0 := SkipWord(s, a0);
    if a < b0 {
      assert a == a0 && b == b0;
    } else {
      SplitFromComplete(s, b0, a, b);
    }
  }

  /** Every word is non-empty and holds no whitespace. */
  predicate Words(ws: seq<string>) {
    forall k | 0 <= k < |ws| :: ws[k] != [] && NoSpace(ws[k])
  }

  /** The words of `s.split()` are non-empty and hold no whitespace. */
  lemma SplitWords(s: string)
    ensures Words(Split(s))
  {
    var ws := Split(s);
    forall k | 0 <= k < |ws| ensures ws[k] != [] && NoSpace(ws[k]) {
      SplitIsWords(s, ws[k]);
    }
  }

  /** `s.split()` is empty exactly when `s` is all whitespace. */
  lemma SplitEmptyIff(s: string)
    ensures Split(s) == [] <==> AllSpace(s)
  {
    var a := SkipSpace(s, 0);
    if a < |s| {
      assert !IsSpace(s[a]);
    }
  }

  /** `t in s` for strings: `t` occurs in `s` at some position. */
  predicate IsSubstring(t: string, s: string) {
    exists i | 0 <= i <= |s| - |t| :: OccursAt(t, s, i)
  }

  predicate OccursAt(t: string, s: string, i: nat) {
    i + |t| <= |s| && s[i..i + |t|] == t
  }
}
