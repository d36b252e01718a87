/**
 * The JavaScript string operations the extension relies on: `trim`,
 * `toUpperCase`, and `replace` with a string pattern (which replaces only
 * the first occurrence and expands `$` patterns in the replacement).
 */
module Text {
  import opened Wrappers

  // ---------------------------------------------------------------------------
  // trim
  // ---------------------------------------------------------------------------

  /**
   * The characters `String.prototype.trim` strips: the WhiteSpace production of
   * ECMA-262 (TAB, VT, FF, SP, NBSP, ZWNBSP and every Zs code point) together
   * with its LineTerminator production (LF, CR, LS, PS).
   */
  predicate IsTrimmable(c: char) {
    || c == '\t' || c == '\n' || c == '\U{B}' || c == '\U{C}' || c == '\r'
    || c == ' ' || c == '\U{A0}' || c == '\U{1680}'
    || ('\U{2000}' <= c <= '\U{200A}')
    || c == '\U{2028}' || c == '\U{2029}' || c == '\U{202F}' || c == '\U{205F}'
    || c == '\U{3000}' || c == '\U{FEFF}'
  }

  /** `s` neither starts nor ends with a trimmable character. */
  predicate IsTrimmed(s: string) {
    |s| == 0 || (!IsTrimmable(s[0]) && !IsTrimmable(s[|s| - 1]))
  }

  /** The position of the first character at or after `i` that `trim` keeps, or `|s|`. */
  function KeptFrom(s: string, i: nat): (k: nat)
    requires i <= |s|
    ensures i <= k <= |s|
    ensures forall j :: i <= j < k ==> IsTrimmable(s[j])
    ensures k == |s| || !IsTrimmable(s[k])
    decreases |s| - i
  {
    if i < |s| && IsTrimmable(s[i]) then KeptFrom(s, i + 1) else i
  }

  /**
   * The position just after the last character before `hi` that `trim`
   * keeps, never below `lo`.
   */
  function KeptUntil(s: string, lo: nat, hi: nat): (k: nat)
    requires lo <= hi <= |s|
    ensures lo <= k <= hi
    ensures forall j :: k <= j < hi ==> IsTrimmable(s[j])
    ensures k == lo || !IsTrimmable(s[k - 1])
    decreases hi - lo
  {
    if lo < hi && IsTrimmable(s[hi - 1]) then KeptUntil(s, lo, hi - 1) else hi
  }

  /** Everything before `a` and from `b` on is trimmable, so `s[a..b]` only cuts trimmable ends. */
  predicate CutsOnlyTrimmable(s: string, a: int, b: int) {
    && 0 <= a <= b <= |s|
    && (forall i :: 0 <= i < a ==> IsTrimmable(s[i]))
    && (forall i :: b <= i < |s| ==> IsTrimmable(s[i]))
  }

  /** `r` is a slice of `s` that cuts only trimmable characters from its two ends. */
  ghost predicate SliceCuttingTrimmable(s: string, r: string) {
    exists a, b :: CutsOnlyTrimmable(s, a, b) && r == s[a..b]
  }

  /**
   * JavaScript's `s.trim()`: `s` without its leading and trailing trimmable
   * characters. The result is a slice of `s` that cuts only trimmable
   * characters and itself neither starts nor ends with one, which pins it.
   */
  function Trim(s: string): (r: string)
    ensures SliceCuttingTrimmable(s, r)
    ensures IsTrimmed(r)
    ensures |r| <= |s|
    ensures r == [] <==> forall i :: 0 <= i < |s| ==> IsTrimmable(s[i])
  {
    var a := KeptFrom(s, 0);
    var b := KeptUntil(s, a, |s|);
    assert a < b ==> !IsTrimmable(s[a]) && !IsTrimmable(s[b - 1]);
    assert a == b ==> forall i :: 0 <= i < |s| ==> IsTrimmable(s[i]);
    assert CutsOnlyTrimmable(s, a, b);
    s[a..b]
  }

  /**
   * `trim` is characterised without its algorithm: a string is the trim of
   * `s` exactly when it is a slice of `s` cutting only trimmable characters
   * and neither starts nor ends with one.
   */
  lemma TrimCharacterised(s: string, r: string)
    ensures r == Trim(s) <==> SliceCuttingTrimmable(s, r) && IsTrimmed(r)
  {
    if SliceCuttingTrimmable(s, r) && IsTrimmed(r) {
      var a, b :| CutsOnlyTrimmable(s, a, b) && r == s[a..b];
      var t := Trim(s);
      var a', b' :| CutsOnlyTrimmable(s, a', b') && t == s[a'..b'];
      if r == [] {
        assert forall i :: 0 <= i < |s| ==> IsTrimmable(s[i]) by {
          forall i | 0 <= i < |s|
            ensures IsTrimmable(s[i])
          {
            if i >= a {
              assert i >= b;
            }
          }
        }
      } else {
        assert !IsTrimmable(s[a]) && !IsTrimmable(s[b - 1]) by {
          assert r[0] == s[a] && r[|r| - 1] == s[b - 1];
        }
        assert t != [];
        assert !IsTrimmable(s[a']) && !IsTrimmable(s[b' - 1]) by {
          assert t[0] == s[a'] && t[|t| - 1] == s[b' - 1];
        }
        assert a == a' && b == b';
      }
    }
  }

  /** A string that is already trimmed is its own trim. */
  lemma TrimOfTrimmed(s: string)
    requires IsTrimmed(s)
    ensures Trim(s) == s
  {
  }

  /** Trimming twice is trimming once. */
  lemma TrimIdempotent(s: string)
    ensures Trim(Trim(s)) == Trim(s)
  {
    TrimOfTrimmed(Trim(s));
  }

  // ---------------------------------------------------------------------------
  // toUpperCase
  // ---------------------------------------------------------------------------

  predicate IsLowerLetter(c: char) {
    'a' <= c <= 'z'
  }

  /** No character of `s` is a lower-case letter. */
  predicate IsUpper(s: string) {
    forall i :: 0 <= i < |s| ==> !IsLowerLetter(s[i])
  }

  function UpperChar(c: char): (d: char)
    ensures !IsLowerLetter(d)
    ensures IsTrimmable(d) <==> IsTrimmable(c)
    ensures !IsLowerLetter(c) ==> d == c
  {
    if IsLowerLetter(c) then (c as int - 32) as char else c
  }

  /** JavaScript's `s.toUpperCase()`, restricted to the ASCII letters. */
  function ToUpper(s: string): (r: string)
    ensures |r| == |s|
    ensures forall i :: 0 <= i < |s| ==>
      r[i] == if IsLowerLetter(s[i]) then (s[i] as int - 32) as char else s[i]
    ensures IsUpper(r)
    ensures IsUpper(s) ==> r == s
    ensures forall i :: 0 <= i < |s| ==> (IsTrimmable(r[i]) <==> IsTrimmable(s[i]))
  {
    seq(|s|, i requires 0 <= i < |s| => UpperChar(s[i]))
  }

  /**
   * The normalisation the options page applies to variable and environment
   * names: `value.trim().toUpperCase()`.
   */
  function NormalizeName(s: string): (r: string)
    ensures r == ToUpper(Trim(s))
    ensures IsUpper(r) && IsTrimmed(r)
    ensures r == [] <==> Trim(s) == []
  {
    var t := Trim(s);
    var r := ToUpper(t);
    assert |t| > 0 ==> (IsTrimmable(r[0]) <==> IsTrimmable(t[0]));
    assert |t| > 0 ==> (IsTrimmable(r[|r| - 1]) <==> IsTrimmable(t[|t| - 1]));
    r
  }

  /** A stored name is a fixed point of the normalisation, so re-entering it changes nothing. */
  lemma NormalizeNameIdempotent(s: string)
    ensures NormalizeName(NormalizeName(s)) == NormalizeName(s)
  {
    var n := NormalizeName(s);
    TrimOfTrimmed(n);
  }

  /** An upper-case, trimmed name normalises to itself. */
  lemma NormalizeNormal(s: string)
    requires IsUpper(s) && IsTrimmed(s)
    ensures NormalizeName(s) == s
  {
    TrimOfTrimmed(s);
  }

  // ---------------------------------------------------------------------------
  // Searching and replace
  // ---------------------------------------------------------------------------

  /** `pat` occurs in `s` starting at position `i`. */
  predicate OccursAt(s: string, pat: string, i: int) {
    0 <= i && i + |pat| <= |s| && s[i..i + |pat|] == pat
  }

  /** `pat` occurs nowhere in `s`. */
  predicate Absent(s: string, pat: string) {
    forall i :: 0 <= i <= |s| ==> !OccursAt(s, pat, i)
  }

  /** The first position at or after `k` where `pat` occurs in `s`. */
  function IndexFrom(s: string, pat: string, k: nat): (r: Option<nat>)
    requires k <= |s|
    ensures r.Some? ==> k <= r.value && OccursAt(s, pat, r.value)
    ensures r.Some? ==> forall j :: k <= j < r.value ==> !OccursAt(s, pat, j)
    ensures r.None? ==> forall j :: k <= j <= |s| ==> !OccursAt(s, pat, j)
    decreases |s| - k
  {
    if OccursAt(s, pat, k) then Some(k)
    else if k == |s| then None
    else IndexFrom(s, pat, k + 1)
  }

  /** JavaScript's `s.indexOf(pat)`: the first position where `pat` occurs, if any. */
  function IndexOf(s: string, pat: string): (r: Option<nat>)
    ensures r.None? <==> Absent(s, pat)
    ensures r.Some? ==> OccursAt(s, pat, r.value)
    ensures r.Some? ==> forall j :: 0 <= j < r.value ==> !OccursAt(s, pat, j)
  {
    IndexFrom(s, pat, 0)
  }

  /**
   * `s` with the first occurrence of `pat` replaced literally by `rep`; `s`
   * itself when `pat` does not occur.
   */
  function ReplaceFirst(s: string, pat: string, rep: string): (r: string)
    ensures Absent(s, pat) ==> r == s
    ensures !Absent(s, pat) ==>
      var p := IndexOf(s, pat).value;
      && |r| == |s| - |pat| + |rep|
      && r[..p] == s[..p]
      && r[p..p + |rep|] == rep
      && r[p + |rep|..] == s[p + |pat|..]
  {
    match IndexOf(s, pat)
    case None => s
    case Some(p) => s[..p] + rep + s[p + |pat|..]
  }

  /**
   * Undoing the splice: putting `pat` back where `rep` was inserted recovers
   * the original string, so nothing but the first occurrence was touched.
   */
  lemma ReplaceFirstUndo(s: string, pat: string, rep: string)
    requires !Absent(s, pat)
    ensures var p := IndexOf(s, pat).value;
      var r := ReplaceFirst(s, pat, rep);
      r[..p] + pat + r[p + |rep|..] == s
  {
    var p := IndexOf(s, pat).value;
    assert s == s[..p] + s[p..p + |pat|] + s[p + |pat|..];
  }

  /**
   * Occurrences of `pat` after the first one are kept verbatim: every
   * occurrence in the untouched tail of `s` is an occurrence in the result,
   * shifted by the difference in length.
   */
  lemma ReplaceFirstKeepsLaterOccurrences(s: string, pat: string, rep: string, q: nat)
    requires !Absent(s, pat)
    requires IndexOf(s, pat).value + |pat| <= q
    requires OccursAt(s, pat, q)
    ensures OccursAt(ReplaceFirst(s, pat, rep), pat, q - |pat| + |rep|)
  {
    var p := IndexOf(s, pat).value;
    var r := ReplaceFirst(s, pat, rep);
    SliceOfSuffix(r, p + |rep|, q - (p + |pat|), |pat|);
    SliceOfSuffix(s, p + |pat|, q - (p + |pat|), |pat|);
  }

  /** A slice of a suffix is a slice of the whole sequence. */
  lemma SliceOfSuffix<T>(s: seq<T>, a: nat, d: nat, n: nat)
    requires a + d + n <= |s|
    ensures s[a..][d..d + n] == s[a + d..a + d + n]
  {
  }

  // ---------------------------------------------------------------------------
  // String.prototype.replace with a string pattern
  // ---------------------------------------------------------------------------

  /**
   * The replacement text ECMA-262's GetSubstitution builds when the pattern is
   * a string (no capture groups): `$$` becomes `$`, `$&` the matched text,
   * `` $` `` the text before the match, `$'` the text after it; every other
   * character, including any other `$`, is copied as is.
   */
  function Expand(rep: string, matched: string, str: string, position: nat): (r: string)
    requires position + |matched| <= |str|
    ensures '$' !in rep ==> r == rep
    decreases |rep|
  {
    if |rep| == 0 then ""
    else if rep[0] == '$' && |rep| >= 2 && rep[1] == '$' then "$" + Expand(rep[2..], matched, str, position)
    else if rep[0] == '$' && |rep| >= 2 && rep[1] == '&' then matched + Expand(rep[2..], matched, str, position)
    else if rep[0] == '$' && |rep| >= 2 && rep[1] == '`' then str[..position] + Expand(rep[2..], matched, str, position)
    else if rep[0] == '$' && |rep| >= 2 && rep[1] == '\'' then str[position + |matched|..] + Expand(rep[2..], matched, str, position)
    else [rep[0]] + Expand(rep[1..], matched, str, position)
  }

  /**
   * JavaScript's `s.replace(pat, rep)` with a string `pat`: only the first
   * occurrence is replaced, and `rep` is expanded by `Expand`.
   */
  function JsReplace(s: string, pat: string, rep: string): (r: string)
    ensures Absent(s, pat) ==> r == s
    ensures '$' !in rep ==> r == ReplaceFirst(s, pat, rep)
  {
    match IndexOf(s, pat)
    case None => s
    case Some(p) => s[..p] + Expand(rep, pat, s, p) + s[p + |pat|..]
  }

  /** The `$` patterns do fire when the replacement has them: `"a%sb".replace("%s", "$&")` keeps `%s`. */
  lemma JsReplaceExpandsDollar()
    ensures JsReplace("a%sb", "%s", "$&") == "a%sb"
    ensures ReplaceFirst("a%sb", "%s", "$&") == "a$&b"
  {
    assert OccursAt("a%sb", "%s", 1);
    assert "a%sb"[0..2][0] == 'a';
    assert IndexOf("a%sb", "%s") == Some(1);
  }
}
