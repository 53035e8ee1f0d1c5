/** The JavaScript string built-ins the core relies on (`trim`, `indexOf`, `substring`,
    `split` with a string separator), over strings of `char`s. A `char` is a Unicode scalar
    value, where JavaScript counts UTF-16 code units: positions and lengths agree with the
    source only for text inside the Basic Multilingual Plane. */
module Strings {
  import opened Types

  /** The code points that end a line for `^`, `$` and `.` in a JavaScript regular expression. */
  predicate IsLineTerminator(c: char) {
    c == '\n' || c == '\r' || c == '\U{2028}' || c == '\U{2029}'
  }

  /** JavaScript's WhiteSpace and LineTerminator code points: what `trim` removes. */
  predicate IsJsWhitespace(c: char) {
    IsLineTerminator(c) || c == '\t' || c == '\U{B}' || c == '\U{C}' || c == ' ' || c == '\U{A0}'
    || c == '\U{FEFF}' || c == '\U{1680}' || ('\U{2000}' <= c <= '\U{200A}') || c == '\U{202F}'
    || c == '\U{205F}' || c == '\U{3000}'
  }

  /** Every code point of `s` from `lo` up to `hi` is whitespace. */
  predicate WhitespaceBetween(s: string, lo: nat, hi: nat)
    requires lo <= hi <= |s|
  {
    forall i :: lo <= i < hi ==> IsJsWhitespace(s[i])
  }

  predicate AllWhitespace(s: string) {
    WhitespaceBetween(s, 0, |s|)
  }

  /** Where the text left by `trimStart` begins, scanning from `i`. */
  function LeadingEnd(s: string, i: nat): (j: nat)
    requires i <= |s|
    ensures i <= j <= |s| && WhitespaceBetween(s, i, j)
    ensures j < |s| ==> !IsJsWhitespace(s[j])
    decreases |s| - i
  {
    if i < |s| && IsJsWhitespace(s[i]) then LeadingEnd(s, i + 1) else i
  }

  /** Where the text left by `trimEnd` ends, scanning down from `j` to no lower than `lo`. */
  function TrailingStart(s: string, lo: nat, j: nat): (k: nat)
    requires lo <= j <= |s|
    ensures lo <= k <= j && WhitespaceBetween(s, k, j)
    ensures lo < k ==> !IsJsWhitespace(s[k - 1])
    decreases j - lo
  {
    if lo < j && IsJsWhitespace(s[j - 1]) then TrailingStart(s, lo, j - 1) else j
  }

  /** `s.trim()`: the one slice of `s` that has only whitespace around it and none at
      either end. */
  function Trim(s: string): (r: string)
    ensures exists k :: 0 <= k && k + |r| <= |s| && r == s[k..k + |r|]
                     && WhitespaceBetween(s, 0, k) && WhitespaceBetween(s, k + |r|, |s|)
    ensures r == [] || (!IsJsWhitespace(r[0]) && !IsJsWhitespace(r[|r| - 1]))
  {
    var i := LeadingEnd(s, 0);
    var j := TrailingStart(s, i, |s|);
    assert WhitespaceBetween(s, j, |s|);
    s[i..j]
  }

  /** `!s.trim()`: the text is empty once trimmed. */
  predicate IsBlank(s: string) {
    Trim(s) == []
  }

  lemma BlankIffAllWhitespace(s: string)
    ensures IsBlank(s) <==> AllWhitespace(s)
  {
    var r := Trim(s);
    var k :| 0 <= k && k + |r| <= |s| && r == s[k..k + |r|]
             && WhitespaceBetween(s, 0, k) && WhitespaceBetween(s, k + |r|, |s|);
    if r != [] {
      assert r[0] == s[k];
    }
  }

  /** Text with no whitespace at either end is its own trim. */
  lemma TrimKeepsEdgeless(s: string)
    requires s == [] || (!IsJsWhitespace(s[0]) && !IsJsWhitespace(s[|s| - 1]))
    ensures Trim(s) == s
  {
    assert LeadingEnd(s, 0) == 0;
    assert TrailingStart(s, 0, |s|) == |s|;
    assert s[0..|s|] == s;
  }

  lemma TrimIdempotent(s: string)
    ensures Trim(Trim(s)) == Trim(s)
  {
    TrimKeepsEdgeless(Trim(s));
  }

  lemma AppendAssoc<T>(a: seq<T>, b: seq<T>, c: seq<T>)
    ensures a + (b + c) == (a + b) + c
  {
  }

  /** `w` stands at index `i` of `s`. */
  predicate OccursAt(s: string, w: string, i: int) {
    0 <= i && i + |w| <= |s| && s[i..i + |w|] == w
  }

  predicate Occurs(s: string, w: string) {
    exists i :: 0 <= i <= |s| && OccursAt(s, w, i)
  }

  /** `s.startsWith(w)`. */
  predicate StartsWith(s: string, w: string) {
    |w| <= |s| && s[..|w|] == w
  }

  lemma OccursAtChars(s: string, w: string, i: int)
    requires OccursAt(s, w, i)
    ensures forall m :: 0 <= m < |w| ==> s[i + m] == w[m]
  {
    forall m | 0 <= m < |w| ensures s[i + m] == w[m] {
      assert s[i..i + |w|][m] == s[i + m];
    }
  }

  lemma OccursAtChar(s: string, w: string, i: int, k: int)
    requires OccursAt(s, w, i) && i <= k < i + |w|
    ensures s[k] == w[k - i]
  {
    assert s[i..i + |w|][k - i] == s[k];
  }

  lemma OccursInMiddle(a: string, m: string, b: string, w: string)
    requires Occurs(m, w)
    ensures Occurs(a + m + b, w)
  {
    var i :| 0 <= i <= |m| && OccursAt(m, w, i);
    var s := a + m + b;
    assert s[|a| + i..|a| + i + |w|] == m[i..i + |w|];
    assert OccursAt(s, w, |a| + i);
  }

  lemma OccursAfter(a: string, m: string, w: string)
    requires Occurs(m, w)
    ensures Occurs(a + m, w)
  {
    var i :| 0 <= i <= |m| && OccursAt(m, w, i);
    assert (a + m)[|a| + i..|a| + i + |w|] == m[i..i + |w|];
    assert OccursAt(a + m, w, |a| + i);
  }

  lemma OccursAtHead(w: string, b: string)
    ensures Occurs(w + b, w)
  {
    assert (w + b)[0..|w|] == w;
    assert OccursAt(w + b, w, 0);
  }

  lemma OccursDropFirst(s: string, w: string, i: int)
    requires OccursAt(s, w, i) && i >= 1
    ensures Occurs(s[1..], w)
  {
    assert s[1..][i - 1..i - 1 + |w|] == s[i..i + |w|];
    assert OccursAt(s[1..], w, i - 1);
  }

  /** `s.indexOf(w, from)` for a non-empty `w`: the first index at or after `from` where
      `w` stands, if any. */
  function IndexOf(s: string, w: string, from: nat): (r: Option<nat>)
    requires w != []
    ensures r.Some? ==> from <= r.value && OccursAt(s, w, r.value)
    ensures forall i :: from <= i && (r.None? || i < r.value) ==> !OccursAt(s, w, i)
    decreases |s| - from
  {
    if from + |w| > |s| then None
    else if s[from..from + |w|] == w then Some(from)
    else IndexOf(s, w, from + 1)
  }

  /** `indexOf` returns `k` when `w` stands at `k` and nowhere between `from` and `k`. */
  lemma IndexOfIs(s: string, w: string, from: nat, k: nat)
    requires w != [] && from <= k && OccursAt(s, w, k)
    requires forall i :: from <= i < k ==> !OccursAt(s, w, i)
    ensures IndexOf(s, w, from) == Some(k)
  {
    var r := IndexOf(s, w, from);
    assert r.Some? && r.value >= k;
  }

  /** `s.substring(0, n)`: the first `min(|s|, n)` characters. */
  function Prefix(s: string, n: nat): (r: string)
    ensures |r| == if |s| < n then |s| else n
    ensures r == s[..|r|]
  {
    if |s| <= n then s else s[..n]
  }

  /** `parts.join(sep)`. */
  function Join(parts: seq<string>, sep: string): string
    decreases |parts|
  {
    if parts == [] then ""
    else if |parts| == 1 then parts[0]
    else parts[0] + sep + Join(parts[1..], sep)
  }

  /** An occurrence inside a prefix of `s` is an occurrence in `s`. */
  lemma OccursInPrefix(s: string, k: nat, w: string, i: int)
    requires k <= |s|
    requires OccursAt(s[..k], w, i)
    ensures OccursAt(s, w, i)
  {
    assert s[..k][i..i + |w|] == s[i..i + |w|];
  }

  /** Where a word occurs, so does each of its prefixes. */
  lemma OccursAtShorter(s: string, w: string, i: int, n: nat)
    requires OccursAt(s, w, i) && n <= |w|
    ensures OccursAt(s, w[..n], i)
  {
    assert s[i..i + n] == s[i..i + |w|][..n];
  }

  /** An occurrence that ends within `a` is an occurrence in `a`. */
  lemma OccursInHead(a: string, b: string, w: string, i: int)
    requires OccursAt(a + b, w, i) && i + |w| <= |a|
    ensures OccursAt(a, w, i)
  {
    assert a[i..i + |w|] == (a + b)[i..i + |w|];
  }

  /** A word missing from `a + b` is missing from `a`. */
  lemma NoOccurrenceInHead(a: string, b: string, w: string)
    requires !Occurs(a + b, w)
    ensures !Occurs(a, w)
  {
    forall i | OccursAt(a, w, i) ensures OccursAt(a + b, w, i) {
      assert (a + b)[i..i + |w|] == a[i..i + |w|];
    }
  }

  /** An occurrence inside a slice of `s` is an occurrence in `s`. */
  lemma OccursInSlice(s: string, lo: nat, hi: nat, w: string, i: int)
    requires lo <= hi <= |s|
    requires OccursAt(s[lo..hi], w, i)
    ensures OccursAt(s, w, lo + i)
  {
    OccursAtChars(s[lo..hi], w, i);
    assert forall m :: 0 <= m < |w| ==> s[lo + i + m] == w[m];
    assert s[lo + i..lo + i + |w|] == w;
  }

  /** `s.split(sep)` for a non-empty separator: the pieces between the separators found
      scanning left to right; joining them again gives `s` back, and no piece holds the
      separator. */
  function Split(s: string, sep: string): (parts: seq<string>)
    requires sep != []
    ensures |parts| >= 1
    ensures Join(parts, sep) == s
    ensures forall i :: 0 <= i < |parts| ==> !Occurs(parts[i], sep)
    ensures IndexOf(s, sep, 0).None? ==> parts == [s]
    ensures IndexOf(s, sep, 0).Some? ==> parts[0] == s[..IndexOf(s, sep, 0).value]
    decreases |s|
  {
    match IndexOf(s, sep, 0)
    case None => [s]
    case Some(k) =>
      var rest := Split(s[k + |sep|..], sep);
      var parts := [s[..k]] + rest;
      SplitAtFirst(s, sep, k);
      assert parts[1..] == rest;
      forall i | 0 <= i < |parts| ensures !Occurs(parts[i], sep) {
        if i > 0 {
          assert parts[i] == rest[i - 1];
        }
      }
      parts
  }

  /** Cutting at the first separator: the text is the part before it, the separator and
      the rest, and the part before holds no separator. */
  lemma SplitAtFirst(s: string, sep: string, k: nat)
    requires sep != [] && IndexOf(s, sep, 0) == Some(k)
    ensures s == s[..k] + sep + s[k + |sep|..]
    ensures !Occurs(s[..k], sep)
  {
    assert OccursAt(s, sep, k);
    assert s[k..] == sep + s[k + |sep|..];
    assert s == s[..k] + s[k..];
    AppendAssoc(s[..k], sep, s[k + |sep|..]);
    forall j | 0 <= j <= k && OccursAt(s[..k], sep, j) ensures false {
      OccursInPrefix(s, k, sep, j);
    }
  }

  /** Splitting yields a single piece exactly when the separator does not occur. */
  lemma SplitSingleIff(s: string, sep: string)
    requires sep != []
    ensures |Split(s, sep)| == 1 <==> !Occurs(s, sep)
  {
    match IndexOf(s, sep, 0)
    case None =>
    case Some(k) =>
      assert OccursAt(s, sep, k);
  }

  /** How many times `w` occurs in `s`, counted left to right without overlap as `split`
      finds it. */
  function CountOccurrences(s: string, w: string): nat
    requires w != []
    decreases |s|
  {
    match IndexOf(s, w, 0)
    case None => 0
    case Some(k) => 1 + CountOccurrences(s[k + |w|..], w)
  }

  /** Splitting on a separator that occurs `k` times yields `k + 1` pieces. */
  lemma {:induction false} SplitCount(s: string, sep: string)
    requires sep != []
    ensures |Split(s, sep)| == CountOccurrences(s, sep) + 1
    decreases |s|
  {
    match IndexOf(s, sep, 0)
    case None =>
    case Some(k) =>
      SplitCount(s[k + |sep|..], sep);
  }
}
