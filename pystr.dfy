/** The Python `str` operations that the translator relies on, over ASCII text:
    `c.isspace()`, `s.lower()`, `s.upper()` on one character, `s.capitalize()`,
    `p in s`, `s.split()`, `sep.join(parts)`, `s.replace(a, b)` and `s.strip(chars)`.
    Characters outside ASCII are passed through unchanged by the case functions
    and are never whitespace. */
module PyStr {

  /** `c.isspace()` for an ASCII character: tab, line feed, vertical tab,
      form feed, carriage return, the separators 0x1C-0x1F and space. */
  predicate IsSpace(c: char) {
    9 <= c as int <= 13 || 28 <= c as int <= 32
  }

  /** A non-empty run of non-whitespace characters: what `split()` yields. */
  predicate IsWord(w: string) {
    |w| > 0 && forall i :: 0 <= i < |w| ==> !IsSpace(w[i])
  }

  /** `c.lower()`: never a capital; only a capital changes, and then into
      the letter whose upper case it is. */
  function Lower(c: char): (d: char)
    ensures !('A' <= d <= 'Z')
    ensures d == c || ('A' <= c <= 'Z' && Upper(d) == c)
  {
    if 'A' <= c <= 'Z' then (c as int + 32) as char else c
  }

  /** `c.upper()`: never a lower-case letter; only a lower-case letter
      changes, and then into the capital whose lower case it is. */
  function Upper(c: char): (d: char)
    ensures !('a' <= d <= 'z')
    ensures d == c || 'a' <= c <= 'z'
    ensures 'a' <= c <= 'z' ==> 'A' <= d <= 'Z' && d as int + 32 == c as int
  {
    if 'a' <= c <= 'z' then (c as int - 32) as char else c
  }

  /** Upper-casing a lower-case letter and lower-casing it again gives it back. */
  lemma UpperLower(c: char)
    requires 'a' <= c <= 'z'
    ensures Lower(Upper(c)) == c
  {
  }

  /** `s.lower()` */
  function LowerStr(s: string): (r: string)
    ensures |r| == |s|
    ensures forall i :: 0 <= i < |s| ==> r[i] == Lower(s[i])
  {
    seq(|s|, i requires 0 <= i < |s| => Lower(s[i]))
  }

  /** `s.capitalize()`: the first character upper-cased, the rest lower-cased. */
  function Capitalize(s: string): (r: string)
    ensures |r| == |s|
    ensures |s| > 0 ==> r[0] == Upper(s[0])
    ensures forall i :: 0 < i < |s| ==> r[i] == Lower(s[i])
  {
    if s == [] then [] else [Upper(s[0])] + LowerStr(s[1..])
  }

  /** `p` occurs in `s` starting at position `i`. */
  predicate OccursAt(s: string, p: string, i: nat) {
    i + |p| <= |s| && s[i..i + |p|] == p
  }

  /** `p in s` on strings, scanning `s` from the left. */
  predicate Contains(s: string, p: string)
    decreases |s|
  {
    |p| <= |s| && (s[..|p|] == p || Contains(s[1..], p))
  }

  /** `Contains` means that `p` occurs in `s` as a contiguous substring. */
  lemma {:induction false} ContainsIff(s: string, p: string)
    ensures Contains(s, p) <==> exists i :: 0 <= i <= |s| && OccursAt(s, p, i)
    decreases |s|
  {
    if |p| <= |s| {
      if s[..|p|] == p {
        assert OccursAt(s, p, 0);
      } else {
        ContainsIff(s[1..], p);
        if Contains(s[1..], p) {
          var i :| 0 <= i <= |s[1..]| && OccursAt(s[1..], p, i);
          assert s[i + 1..i + 1 + |p|] == s[1..][i..i + |p|];
          assert OccursAt(s, p, i + 1);
        }
        if exists i :: 0 <= i <= |s| && OccursAt(s, p, i) {
          var i :| 0 <= i <= |s| && OccursAt(s, p, i);
          assert i != 0;
          assert s[1..][i - 1..i - 1 + |p|] == s[i..i + |p|];
          assert OccursAt(s[1..], p, i - 1);
        }
      }
    }
  }

  /** An occurrence at a known position makes `p in s` true. */
  lemma ContainsAt(s: string, p: string, i: nat)
    requires OccursAt(s, p, i)
    ensures Contains(s, p)
  {
    ContainsIff(s, p);
  }

  /** `p in s` is false when a character of `p` does not occur in `s` at all. */
  lemma ContainsMissingChar(s: string, p: string, k: nat)
    requires k < |p|
    requires forall i :: 0 <= i < |s| ==> s[i] != p[k]
    ensures !Contains(s, p)
  {
    ContainsIff(s, p);
  }

  /** Length of the longest whitespace-free prefix of `s`. */
  function WordLen(s: string): (n: nat)
    ensures n <= |s|
    ensures forall i :: 0 <= i < n ==> !IsSpace(s[i])
    ensures n < |s| ==> IsSpace(s[n])
  {
    if s == [] || IsSpace(s[0]) then 0 else 1 + WordLen(s[1..])
  }

  /** `s.split()` with no separator: the maximal runs of non-whitespace
      characters, in order; leading and trailing whitespace yields nothing. */
  function Split(s: string): (ws: seq<string>)
    ensures forall k :: 0 <= k < |ws| ==> IsWord(ws[k])
    decreases |s|
  {
    if s == [] then []
    else if IsSpace(s[0]) then Split(s[1..])
    else
      var n := WordLen(s);
      assert n > 0;
      assert IsWord(s[..n]);
      [s[..n]] + Split(s[n..])
  }

  /** `sep.join(parts)` */
  function Join(parts: seq<string>, sep: string): string {
    if |parts| == 0 then ""
    else if |parts| == 1 then parts[0]
    else parts[0] + sep + Join(parts[1..], sep)
  }

  /** `s.replace(pat, rep)`: left-to-right, non-overlapping replacement. */
  function Replace(s: string, pat: string, rep: string): string
    requires |pat| > 0
    decreases |s|
  {
    if |s| < |pat| then s
    else if s[..|pat|] == pat then rep + Replace(s[|pat|..], pat, rep)
    else [s[0]] + Replace(s[1..], pat, rep)
  }

  /** A replacement that starts with a non-space character cannot turn a
      text with a non-space character into pure whitespace. */
  lemma {:induction false} ReplaceAllSpace(s: string, pat: string, rep: string)
    requires |pat| > 0 && |rep| > 0 && !IsSpace(rep[0])
    ensures (forall i :: 0 <= i < |Replace(s, pat, rep)| ==> IsSpace(Replace(s, pat, rep)[i]))
      ==> forall i :: 0 <= i < |s| ==> IsSpace(s[i])
    decreases |s|
  {
    var t := Replace(s, pat, rep);
    if |s| < |pat| {
      assert t == s;
    } else if s[..|pat|] == pat {
      assert t[0] == rep[0];
    } else {
      var r := Replace(s[1..], pat, rep);
      assert t == [s[0]] + r;
      ReplaceAllSpace(s[1..], pat, rep);
      if forall i :: 0 <= i < |t| ==> IsSpace(t[i]) {
        assert forall i :: 0 <= i < |r| ==> IsSpace(r[i]) by {
          forall i | 0 <= i < |r| ensures IsSpace(r[i]) {
            assert r[i] == t[i + 1];
          }
        }
        assert forall i :: 1 <= i < |s| ==> s[i] == s[1..][i - 1];
        assert IsSpace(t[0]);
      }
    }
  }

  /** `replace` changes nothing when the pattern does not occur. */
  lemma {:induction false} ReplaceAbsent(s: string, pat: string, rep: string)
    requires |pat| > 0 && !Contains(s, pat)
    ensures Replace(s, pat, rep) == s
    decreases |s|
  {
    if |s| >= |pat| {
      ReplaceAbsent(s[1..], pat, rep);
      assert [s[0]] + s[1..] == s;
    }
  }

  /** `[f(x) for x in xs]`: `f` applied to every element, in order. */
  function MapSeq<A, B>(f: A -> B, xs: seq<A>): (r: seq<B>)
    ensures |r| == |xs|
  {
    if xs == [] then [] else MapSeq(f, xs[..|xs| - 1]) + [f(xs[|xs| - 1])]
  }

  /** The `k`-th element of the image is the image of the `k`-th element. */
  lemma {:induction false} MapSeqAt<A, B>(f: A -> B, xs: seq<A>, k: nat)
    requires k < |xs|
    ensures MapSeq(f, xs)[k] == f(xs[k])
  {
    var n := |xs| - 1;
    if k < n {
      MapSeqAt(f, xs[..n], k);
      assert xs[..n][k] == xs[k];
    }
  }

  /** The image of a non-empty sequence is the image of its head followed
      by the image of its tail. */
  lemma MapSeqHeadTail<A, B>(f: A -> B, xs: seq<A>)
    requires xs != []
    ensures MapSeq(f, xs)[0] == f(xs[0])
    ensures MapSeq(f, xs)[1..] == MapSeq(f, xs[1..])
  {
    MapSeqAt(f, xs, 0);
    forall k | 0 <= k < |xs| - 1
      ensures MapSeq(f, xs)[1..][k] == MapSeq(f, xs[1..])[k]
    {
      MapSeqAt(f, xs, k + 1);
      MapSeqAt(f, xs[1..], k);
    }
  }

  /** `lower()` distributes over concatenation. */
  lemma LowerAppend(a: string, b: string)
    ensures LowerStr(a + b) == LowerStr(a) + LowerStr(b)
  {
    var l, r := LowerStr(a + b), LowerStr(a) + LowerStr(b);
    forall i | 0 <= i < |a + b| ensures l[i] == r[i] {
      if i < |a| { assert (a + b)[i] == a[i]; } else { assert (a + b)[i] == b[i - |a|]; }
    }
  }

  /** A pattern without a space. */
  predicate SpaceFree(pat: string) {
    |pat| > 0 && forall i :: 0 <= i < |pat| ==> pat[i] != ' '
  }

  /** A pattern without a space never matches across a space, so `replace`
      works on the two sides of a space separately. */
  lemma {:induction false} ReplaceAroundSpace(a: string, b: string, pat: string, rep: string)
    requires SpaceFree(pat)
    ensures Replace(a + " " + b, pat, rep) == Replace(a, pat, rep) + " " + Replace(b, pat, rep)
    decreases |a|, 1
  {
    var s := a + " " + b;
    if |s| < |pat| {
      assert Replace(a, pat, rep) == a && Replace(b, pat, rep) == b;
    } else if |a| < |pat| {
      ReplaceShortLeft(a, b, pat, rep);
    } else if s[..|pat|] == pat {
      ReplaceMatchLeft(a, b, pat, rep);
    } else {
      ReplaceSkipLeft(a, b, pat, rep);
    }
  }

  /** The case where the left part is shorter than the pattern: it is kept. */
  lemma {:induction false} ReplaceShortLeft(a: string, b: string, pat: string, rep: string)
    requires SpaceFree(pat) && |a| < |pat| <= |a + " " + b|
    ensures Replace(a + " " + b, pat, rep) == Replace(a, pat, rep) + " " + Replace(b, pat, rep)
    decreases |a|, 0
  {
    var s := a + " " + b;
    var y := Replace(b, pat, rep);
    assert s[..|pat|] != pat by {
      assert s[..|pat|][|a|] == ' ';
    }
    assert Replace(s, pat, rep) == [s[0]] + Replace(s[1..], pat, rep);
    if a == [] {
      assert s[1..] == b;
    } else {
      assert s[1..] == a[1..] + " " + b;
      ReplaceAroundSpace(a[1..], b, pat, rep);
      assert Replace(a[1..], pat, rep) == a[1..];
      assert [a[0]] + a[1..] == a;
      AppendAssoc([a[0]], a[1..], " ");
      AppendAssoc([a[0]], a[1..] + " ", y);
    }
  }

  /** The case where the pattern matches at the start of the left part. */
  lemma {:induction false} ReplaceMatchLeft(a: string, b: string, pat: string, rep: string)
    requires SpaceFree(pat) && |pat| <= |a| && a[..|pat|] == pat
    ensures Replace(a + " " + b, pat, rep) == Replace(a, pat, rep) + " " + Replace(b, pat, rep)
    decreases |a|, 0
  {
    var s := a + " " + b;
    var t := a[|pat|..];
    assert s[..|pat|] == pat;
    assert s[|pat|..] == t + " " + b;
    assert Replace(s, pat, rep) == rep + Replace(t + " " + b, pat, rep);
    ReplaceAroundSpace(t, b, pat, rep);
    AppendAssoc(rep, Replace(t, pat, rep), " ");
    AppendAssoc(rep, Replace(t, pat, rep) + " ", Replace(b, pat, rep));
  }

  /** The case where the pattern does not match at the start of the left part. */
  lemma {:induction false} ReplaceSkipLeft(a: string, b: string, pat: string, rep: string)
    requires SpaceFree(pat) && |pat| <= |a| && a[..|pat|] != pat
    ensures Replace(a + " " + b, pat, rep) == Replace(a, pat, rep) + " " + Replace(b, pat, rep)
    decreases |a|, 0
  {
    var s := a + " " + b;
    var t := a[1..];
    assert s[..|pat|] == a[..|pat|];
    assert s[1..] == t + " " + b;
    assert Replace(s, pat, rep) == [s[0]] + Replace(t + " " + b, pat, rep);
    ReplaceAroundSpace(t, b, pat, rep);
    AppendAssoc([a[0]], Replace(t, pat, rep), " ");
    AppendAssoc([a[0]], Replace(t, pat, rep) + " ", Replace(b, pat, rep));
  }

  lemma AppendAssoc<T>(a: seq<T>, b: seq<T>, c: seq<T>)
    ensures a + b + c == a + (b + c)
  {
  }

  /** Where `lstrip` stops when it starts at `i`: the first position from `i`
      on whose character is not droppable, or the end. */
  function SkipLeft(s: string, drop: char -> bool, i: nat): (n: nat)
    requires i <= |s|
    ensures i <= n <= |s|
    ensures n < |s| ==> !drop(s[n])
    decreases |s| - i
  {
    if i < |s| && drop(s[i]) then SkipLeft(s, drop, i + 1) else i
  }

  /** Where `rstrip` stops when it starts at `j`: the end of the last kept
      character before `j`, or `0`. */
  function SkipRight(s: string, drop: char -> bool, j: nat): (n: nat)
    requires j <= |s|
    ensures n <= j
    ensures n > 0 ==> !drop(s[n - 1])
    decreases j
  {
    if j > 0 && drop(s[j - 1]) then SkipRight(s, drop, j - 1) else j
  }

  /** Every character `lstrip` passes over is droppable. */
  lemma {:induction false} SkipLeftDropped(s: string, drop: char -> bool, i: nat)
    requires i <= |s|
    ensures forall k :: i <= k < SkipLeft(s, drop, i) ==> drop(s[k])
    decreases |s| - i
  {
    if i < |s| && drop(s[i]) {
      SkipLeftDropped(s, drop, i + 1);
    }
  }

  /** Every character `rstrip` passes over is droppable. */
  lemma {:induction false} SkipRightDropped(s: string, drop: char -> bool, j: nat)
    requires j <= |s|
    ensures forall k :: SkipRight(s, drop, j) <= k < j ==> drop(s[k])
    decreases j
  {
    if j > 0 && drop(s[j - 1]) {
      SkipRightDropped(s, drop, j - 1);
    }
  }

  /** `r` is the slice of `s` at `i` and everything of `s` around it is droppable. */
  predicate SliceBetweenDropped(s: string, r: string, i: nat, drop: char -> bool) {
    && i + |r| <= |s| && r == s[i..i + |r|]
    && (forall k :: 0 <= k < i ==> drop(s[k]))
    && (forall k :: i + |r| <= k < |s| ==> drop(s[k]))
  }

  /** `s.strip(chars)`, with `drop` telling which characters are in `chars`:
      `rstrip` after `lstrip`; what is left starts and ends with a character
      not in `chars`. */
  function Strip(s: string, drop: char -> bool): (r: string)
    ensures r == [] || (!drop(r[0]) && !drop(r[|r| - 1]))
  {
    var t := s[SkipLeft(s, drop, 0)..];
    t[..SkipRight(t, drop, |t|)]
  }

  /** The result of `strip` is the slice of `s` that starts where `lstrip`
      stopped, and everything of `s` around it is droppable. */
  lemma StripSlice(s: string, drop: char -> bool)
    ensures SliceBetweenDropped(s, Strip(s, drop), SkipLeft(s, drop, 0), drop)
  {
    var i := SkipLeft(s, drop, 0);
    var t := s[i..];
    var m := SkipRight(t, drop, |t|);
    assert Strip(s, drop) == t[..m] == s[i..i + m];
    SkipLeftDropped(s, drop, 0);
    SkipRightDropped(t, drop, |t|);
    forall k | i + m <= k < |s|
      ensures drop(s[k])
    {
      assert s[k] == t[k - i];
    }
  }

  /** `lstrip` from `i` stops at `n` when everything in between is droppable
      and the character at `n`, if any, is not. */
  lemma {:induction false} SkipLeftAt(s: string, drop: char -> bool, i: nat, n: nat)
    requires i <= n <= |s|
    requires forall k :: i <= k < n ==> drop(s[k])
    requires n < |s| ==> !drop(s[n])
    ensures SkipLeft(s, drop, i) == n
    decreases n - i
  {
    if i < n {
      SkipLeftAt(s, drop, i + 1, n);
    }
  }

  /** `rstrip` from `j` stops at `n` when everything in between is droppable
      and the character before `n`, if any, is not. */
  lemma {:induction false} SkipRightAt(s: string, drop: char -> bool, j: nat, n: nat)
    requires n <= j <= |s|
    requires forall k :: n <= k < j ==> drop(s[k])
    requires n > 0 ==> !drop(s[n - 1])
    ensures SkipRight(s, drop, j) == n
    decreases j - n
  {
    if n < j {
      SkipRightAt(s, drop, j - 1, n);
    }
  }

  /** The converse of `StripSlice`: when everything before `i` and from `j`
      on is droppable and the kept slice starts and ends with a character
      that is not (or nothing is kept at all), `strip` yields that slice. */
  lemma StripBetween(s: string, drop: char -> bool, i: nat, j: nat)
    requires (i < j <= |s| && !drop(s[i]) && !drop(s[j - 1])) || i == j == |s|
    requires forall k :: 0 <= k < i ==> drop(s[k])
    requires forall k :: j <= k < |s| ==> drop(s[k])
    ensures Strip(s, drop) == s[i..j]
  {
    SkipLeftAt(s, drop, 0, i);
    var t := s[i..];
    forall k | j - i <= k < |t| ensures drop(t[k]) {
      assert t[k] == s[k + i];
    }
    if i < j {
      assert t[j - i - 1] == s[j - 1];
    }
    SkipRightAt(t, drop, |t|, j - i);
  }

  /** A string with no droppable character at either end is left as it is. */
  lemma StripKeeps(s: string, drop: char -> bool)
    requires s == [] || (!drop(s[0]) && !drop(s[|s| - 1]))
    ensures Strip(s, drop) == s
  {
  }

  /** `split()` yields nothing exactly when the text is all whitespace. */
  lemma {:induction false} SplitEmptyIff(s: string)
    ensures Split(s) == [] <==> forall i :: 0 <= i < |s| ==> IsSpace(s[i])
    decreases |s|
  {
    if s != [] {
      SplitEmptyIff(s[1..]);
      if IsSpace(s[0]) {
        assert forall i :: 0 < i < |s| ==> s[i] == s[1..][i - 1];
      }
    }
  }

  /** Splitting the single-space join of words gives the words back. */
  lemma {:induction false} SplitJoin(ws: seq<string>)
    requires forall k :: 0 <= k < |ws| ==> IsWord(ws[k])
    ensures Split(Join(ws, " ")) == ws
  {
    if |ws| == 1 {
      var w := ws[0];
      assert Join(ws, " ") == w;
      assert WordLen(w) == |w|;
      assert w[..|w|] == w;
      assert w[|w|..] == [];
    } else if |ws| > 1 {
      var w, rest := ws[0], Join(ws[1..], " ");
      var s := w + " " + rest;
      assert s[0] == w[0];
      assert s[|w|] == ' ';
      assert WordLen(s) == |w| by {
        assert forall i :: 0 <= i < |w| ==> s[i] == w[i];
      }
      assert s[..|w|] == w;
      assert s[|w|..] == " " + rest;
      assert (" " + rest)[1..] == rest;
      SplitJoin(ws[1..]);
    }
  }

  /** No two adjacent spaces. The neighbour is named by a second bound
      variable rather than `s[i + 1]`, which gives the solver a term to
      instantiate on without feeding itself new indices. */
  predicate NoDoubleSpace(s: string) {
    forall i, j :: 0 <= i < |s| && 0 <= j < |s| && j == i + 1 ==> !(s[i] == ' ' && s[j] == ' ')
  }

  /** `s.replace("  ", " ")` changes nothing when `s` has no double space. */
  lemma {:induction false} ReplaceNoDoubleSpace(s: string)
    requires NoDoubleSpace(s)
    ensures Replace(s, "  ", " ") == s
  {
    if |s| >= 2 {
      assert s[..2] != "  " by {
        assert s[..2][0] == s[0] && s[..2][1] == s[1];
      }
      ReplaceNoDoubleSpace(s[1..]);
    }
  }

  /** The single-space join of words has no double space, starts and ends
      with a non-space character. */
  lemma {:induction false} JoinShape(ws: seq<string>)
    requires |ws| > 0
    requires forall k :: 0 <= k < |ws| ==> IsWord(ws[k])
    ensures var s := Join(ws, " ");
      && |s| > 0 && !IsSpace(s[0]) && !IsSpace(s[|s| - 1])
      && NoDoubleSpace(s)
  {
    if |ws| > 1 {
      JoinShape(ws[1..]);
      var w, rest := ws[0], Join(ws[1..], " ");
      var s := w + " " + rest;
      assert forall i :: 0 <= i < |w| ==> s[i] == w[i];
      assert forall i :: |w| < i < |s| ==> s[i] == rest[i - |w| - 1];
    }
  }

  /** For a non-empty list of words, `" ".join(ws).replace("  ", " ").strip()`
      is the plain single-space join, which splits back into `ws`. */
  lemma CleanJoin(ws: seq<string>)
    requires |ws| > 0
    requires forall k :: 0 <= k < |ws| ==> IsWord(ws[k])
    ensures Strip(Replace(Join(ws, " "), "  ", " "), IsSpace) == Join(ws, " ")
    ensures Split(Join(ws, " ")) == ws
  {
    var s := Join(ws, " ");
    JoinShape(ws);
    SplitJoin(ws);
    ReplaceNoDoubleSpace(s);
    StripKeeps(s, IsSpace);
  }

  lemma JoinThree(a: string, b: string, c: string)
    ensures Join([a, b, c], " ") == a + " " + b + " " + c
  {
    assert [a, b, c][1..] == [b, c] && [b, c][1..] == [c];
    assert Join([b, c], " ") == b + " " + Join([c], " ");
    AppendAssoc(a + " " + b, " ", c);
    AppendAssoc(a, " ", b + " " + c);
    AppendAssoc(a + " ", b, " " + c);
  }
}
