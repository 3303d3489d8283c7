/** `translate_to_pigeon`, human text to pigeon. Randomness is an
    explicit input: `sound(k)` is the index picked by the k-th call of
    `random.choice` over the four sounds, and `coin(k)` is the outcome of the
    k-th comparison `random.random() < p` (p is 0.7 at the bonus-sound test and
    0.5 at the separator test). */
module Forward {
  import opened PyStr
  import opened Pigeon

  type SoundStream = nat -> SoundIndex
  type CoinStream = nat -> bool

  /** How many sounds and coins have been drawn so far. */
  datatype Cursor = Cursor(sounds: nat, coins: nat)

  /** What one input word contributes to `pigeon_output`: its simplified
      token, then at most one bonus sound, then at most one separator. */
  datatype WordOutput = WordOutput(token: string, bonus: seq<string>, separator: seq<string>)

  /** The two separators, appended after the fourth word and every third
      word after it (0-based positions 3, 6, 9, ...). */
  predicate IsSeparator(t: string) {
    t == "Flap-flurry!" || t == "..."
  }

  /** The word at 0-based position `i` gets a separator: `i` is a positive
      multiple of 3. */
  predicate SeparatorAfter(i: nat) {
    i % 3 == 0 && i != 0
  }

  /** What one iteration of the loop contributes for `word` at position `i`,
      starting from cursor `c`: the simplified token; a bonus sound when the
      first coin comes up (the test on line 74 always passes, but its draw is
      consumed); a separator, decided by the next coin, at every positive
      multiple of 3. */
  function WordStep(word: string, i: nat, c: Cursor, sound: SoundStream, coin: CoinStream)
    : (WordOutput, Cursor)
  {
    var bonus := if coin(c.coins) then [PigeonSound(sound(c.sounds + 1))] else [];
    var sep := if SeparatorAfter(i) then [if coin(c.coins + 1) then "Flap-flurry!" else "..."] else [];
    (WordOutput(SimplifiedToken(word), bonus, sep), Cursor(c.sounds + 1 + |bonus|, c.coins + 1 + |sep|))
  }

  /** The contribution of `word` at position `i`: its simplified token, at
      most one bonus sound, and a separator exactly after the fourth word and
      every third word after it (0-based positions 3, 6, 9, ...). */
  predicate WellShaped(o: WordOutput, word: string, i: nat) {
    && o.token == SimplifiedToken(word)
    && |o.bonus| <= 1
    && (forall k :: 0 <= k < |o.bonus| ==> IsSound(o.bonus[k]))
    && (o.separator != [] <==> SeparatorAfter(i))
    && |o.separator| <= 1
    && (forall k :: 0 <= k < |o.separator| ==> IsSeparator(o.separator[k]))
  }

  /** What a run of the loop over `words` has produced, and the cursor after it. */
  function Run(words: seq<string>, sound: SoundStream, coin: CoinStream): (r: (seq<WordOutput>, Cursor))
    ensures |r.0| == |words|
  {
    if words == [] then ([], Cursor(0, 0))
    else
      var n := |words| - 1;
      var prev := Run(words[..n], sound, coin);
      var step := WordStep(words[n], n, prev.1, sound, coin);
      (prev.0 + [step.0], step.1)
  }

  /** Every word's contribution has the promised shape. */
  lemma {:induction false} RunShape(words: seq<string>, sound: SoundStream, coin: CoinStream, i: nat)
    requires i < |words|
    ensures WellShaped(Run(words, sound, coin).0[i], words[i], i)
  {
    var n := |words| - 1;
    var outs := Run(words[..n], sound, coin).0;
    var c := Run(words[..n], sound, coin).1;
    assert Run(words, sound, coin).0 == outs + [WordStep(words[n], n, c, sound, coin).0];
    if i < n {
      RunShape(words[..n], sound, coin, i);
      assert words[..n][i] == words[i];
    }
  }

  /** The tokens of a word's contribution, in order. */
  function Tokens(o: WordOutput): seq<string> {
    [o.token] + o.bonus + o.separator
  }

  /** `pigeon_output` after the loop: every word's contribution, in input order. */
  function Flatten(outs: seq<WordOutput>): seq<string> {
    if outs == [] then [] else Flatten(outs[..|outs| - 1]) + Tokens(outs[|outs| - 1])
  }

  /** The two sounds that top up a short output. */
  function TopUp(c: Cursor, sound: SoundStream): (r: seq<string>)
    ensures |r| == 2 && IsSound(r[0]) && IsSound(r[1])
  {
    [PigeonSound(sound(c.sounds)), PigeonSound(sound(c.sounds + 1))]
  }

  /** The tokens `translate_to_pigeon` space-joins: three sounds for an input
      with no words; otherwise the loop's output, topped up with two sounds
      when it holds fewer than five tokens. */
  function PigeonTokens(words: seq<string>, sound: SoundStream, coin: CoinStream): seq<string> {
    if words == [] then [PigeonSound(sound(0)), PigeonSound(sound(1)), PigeonSound(sound(2))]
    else
      var run := Run(words, sound, coin);
      var body := Flatten(run.0);
      if |body| < 5 && |words| > 0 then body + TopUp(run.1, sound) else body
  }

  /** The words of the closed output vocabulary. */
  predicate InVocabulary(t: string) {
    t == "Grain!" || t == "Sky!" || IsSound(t) || IsSeparator(t)
  }

  lemma VocabularyAreWords(t: string)
    requires InVocabulary(t)
    ensures IsWord(t)
  {
    if t == "Coo!" {
      assert IsWord("Coo!");
    }
  }

  /** Unfolding `Run` and `Flatten` at the last word. */
  lemma RunLast(words: seq<string>, sound: SoundStream, coin: CoinStream)
    requires |words| > 0
    ensures var n := |words| - 1;
      var prev := Run(words[..n], sound, coin);
      var step := WordStep(words[n], n, prev.1, sound, coin);
      && Run(words, sound, coin) == (prev.0 + [step.0], step.1)
      && Flatten(Run(words, sound, coin).0) == Flatten(prev.0) + Tokens(step.0)
  {
    var n := |words| - 1;
    var prev := Run(words[..n], sound, coin);
    var step := WordStep(words[n], n, prev.1, sound, coin);
    assert (prev.0 + [step.0])[..n] == prev.0;
  }

  /** The loop emits only tokens of the vocabulary. */
  lemma {:induction false} RunVocabulary(words: seq<string>, sound: SoundStream, coin: CoinStream)
    ensures forall t <- Flatten(Run(words, sound, coin).0) :: InVocabulary(t)
  {
    if words != [] {
      var n := |words| - 1;
      RunLast(words, sound, coin);
      RunVocabulary(words[..n], sound, coin);
      RunShape(words, sound, coin, n);
    }
  }

  /** Every output token is a whitespace-free word of the vocabulary. */
  lemma PigeonTokensVocabulary(words: seq<string>, sound: SoundStream, coin: CoinStream)
    ensures var ts := PigeonTokens(words, sound, coin);
      forall k :: 0 <= k < |ts| ==> InVocabulary(ts[k]) && IsWord(ts[k])
  {
    RunVocabulary(words, sound, coin);
    var ts := PigeonTokens(words, sound, coin);
    forall k | 0 <= k < |ts| ensures InVocabulary(ts[k]) && IsWord(ts[k]) {
      assert InVocabulary(ts[k]);
      VocabularyAreWords(ts[k]);
    }
  }

  /** With n >= 1 words the loop emits between n and 2n + (n-1)/3 tokens:
      one token per word, at most one bonus sound per word, and one
      separator for each positive multiple of 3 below n. */
  lemma {:induction false} BodySize(words: seq<string>, sound: SoundStream, coin: CoinStream)
    requires |words| > 0
    ensures var n, m := |words|, |Flatten(Run(words, sound, coin).0)|;
      n <= m <= 2 * n + (n - 1) / 3
  {
    var n := |words| - 1;
    RunLast(words, sound, coin);
    RunShape(words, sound, coin, n);
    if n > 0 {
      BodySize(words[..n], sound, coin);
    }
  }

  /** With n >= 1 words the output holds between max(n, 3) and
      2n + (n-1)/3 + 2 tokens. */
  lemma PigeonTokenCount(words: seq<string>, sound: SoundStream, coin: CoinStream)
    requires |words| > 0
    ensures var n, m := |words|, |PigeonTokens(words, sound, coin)|;
      (if n > 3 then n else 3) <= m <= 2 * n + (n - 1) / 3 + 2
  {
    BodySize(words, sound, coin);
  }

  /** Number of separators in a token sequence. */
  function SeparatorCount(ts: seq<string>): nat {
    if ts == [] then 0
    else SeparatorCount(ts[..|ts| - 1]) + (if IsSeparator(ts[|ts| - 1]) then 1 else 0)
  }

  lemma {:induction false} SeparatorCountAppend(a: seq<string>, b: seq<string>)
    ensures SeparatorCount(a + b) == SeparatorCount(a) + SeparatorCount(b)
    decreases |b|
  {
    if b != [] {
      var b' := b[..|b| - 1];
      assert (a + b)[..|a + b| - 1] == a + b';
      SeparatorCountAppend(a, b');
    } else {
      assert a + b == a;
    }
  }

  /** Sounds are never separators. */
  lemma SoundsCountNoSeparator(ts: seq<string>)
    requires forall k :: 0 <= k < |ts| ==> IsSound(ts[k])
    ensures SeparatorCount(ts) == 0
  {
    if ts != [] {
      assert !IsSeparator(ts[|ts| - 1]);
      SoundsCountNoSeparator(ts[..|ts| - 1]);
    }
  }

  /** A word's contribution holds one separator exactly at positive multiples of 3. */
  lemma TokensSeparatorCount(o: WordOutput, word: string, i: nat)
    requires WellShaped(o, word, i)
    ensures SeparatorCount(Tokens(o)) == if SeparatorAfter(i) then 1 else 0
  {
    SeparatorCountAppend([o.token] + o.bonus, o.separator);
    SeparatorCountAppend([o.token], o.bonus);
    assert [o.token][..0] == [];
    SoundsCountNoSeparator(o.bonus);
    if o.separator != [] {
      assert o.separator == [o.separator[0]];
      assert o.separator[..0] == [];
    }
  }

  /** The loop emits exactly one separator per positive multiple of 3 below n. */
  lemma {:induction false} RunSeparatorCount(words: seq<string>, sound: SoundStream, coin: CoinStream)
    requires |words| > 0
    ensures SeparatorCount(Flatten(Run(words, sound, coin).0)) == (|words| - 1) / 3
  {
    var n := |words| - 1;
    RunLast(words, sound, coin);
    RunShape(words, sound, coin, n);
    var o := Run(words, sound, coin).0[n];
    var prev := Flatten(Run(words[..n], sound, coin).0);
    assert Flatten(Run(words, sound, coin).0) == prev + Tokens(o);
    SeparatorCountAppend(prev, Tokens(o));
    TokensSeparatorCount(o, words[n], n);
    if n > 0 {
      RunSeparatorCount(words[..n], sound, coin);
      ThirdsStep(n);
    }
  }

  lemma ThirdsStep(n: nat)
    requires n > 0
    ensures n / 3 == (n - 1) / 3 + (if n % 3 == 0 then 1 else 0)
  {
  }

  /** Separators stand exactly after the words at positive multiples of 3
      and nowhere else: the whole output holds (n-1)/3 of them. */
  lemma PigeonSeparatorCount(words: seq<string>, sound: SoundStream, coin: CoinStream)
    requires |words| > 0
    ensures SeparatorCount(PigeonTokens(words, sound, coin)) == (|words| - 1) / 3
  {
    RunSeparatorCount(words, sound, coin);
    var run := Run(words, sound, coin);
    var body := Flatten(run.0);
    if |body| < 5 {
      SeparatorCountAppend(body, TopUp(run.1, sound));
      SoundsCountNoSeparator(TopUp(run.1, sound));
    }
  }

  lemma {:induction false} FlattenSplit(outs: seq<WordOutput>, i: nat)
    requires i <= |outs|
    ensures Flatten(outs) == Flatten(outs[..i]) + Flatten(outs[i..])
    decreases |outs|
  {
    if i == |outs| {
      assert outs[..i] == outs;
      assert outs[i..] == [];
    } else {
      var m := |outs| - 1;
      FlattenSplit(outs[..m], i);
      assert outs[..m][..i] == outs[..i];
      assert outs[i..][..|outs[i..]| - 1] == outs[..m][i..];
      assert outs[i..][|outs[i..]| - 1] == outs[m];
    }
  }

  /** For n >= 1 words the output is the loop's output, followed by the two
      top-up sounds exactly when the loop emitted fewer than five tokens. */
  lemma PigeonTokensTopUp(words: seq<string>, sound: SoundStream, coin: CoinStream)
    requires |words| > 0
    ensures var run := Run(words, sound, coin); var body := Flatten(run.0);
      PigeonTokens(words, sound, coin) == body + (if |body| < 5 then TopUp(run.1, sound) else [])
  {
  }

  /** Where the contribution of word `i` starts in `Flatten(outs)`. */
  function Offset(outs: seq<WordOutput>, i: nat): nat
    requires i <= |outs|
  {
    |Flatten(outs[..i])|
  }

  /** Consecutive contributions are adjacent: word `i + 1`'s starts right
      after word `i`'s, so the words' tokens appear in input order. */
  lemma OffsetStep(outs: seq<WordOutput>, i: nat)
    requires i < |outs|
    ensures Offset(outs, i + 1) == Offset(outs, i) + |Tokens(outs[i])|
  {
    assert outs[..i + 1][..i] == outs[..i];
  }

  /** The contribution of word `i` stands at `Offset(outs, i)` in `Flatten(outs)`. */
  lemma ContributionAt(outs: seq<WordOutput>, i: nat)
    requires i < |outs|
    ensures var ts, at := Flatten(outs), Offset(outs, i);
      && at + |Tokens(outs[i])| <= |ts|
      && ts[at..at + |Tokens(outs[i])|] == Tokens(outs[i])
  {
    var before, here := Flatten(outs[..i]), Tokens(outs[i]);
    FlattenSplit(outs, i + 1);
    assert outs[..i + 1][..i] == outs[..i];
    assert Flatten(outs[..i + 1]) == before + here;
    var after := Flatten(outs[i + 1..]);
    assert Flatten(outs) == before + here + after;
    SliceMiddle(before, here, after);
  }

  lemma SliceMiddle<T>(a: seq<T>, b: seq<T>, c: seq<T>)
    ensures (a + b + c)[|a|..|a| + |b|] == b
  {
  }

  /** The simplified token of word `i` opens its contribution in the final
      output, and word `i + 1`'s token comes after it: the words' tokens
      appear in input order, each followed by at most one bonus sound. */
  lemma WordTokenAt(words: seq<string>, sound: SoundStream, coin: CoinStream, i: nat)
    requires i < |words|
    ensures var outs, ts := Run(words, sound, coin).0, PigeonTokens(words, sound, coin);
      && Offset(outs, i) < |ts|
      && ts[Offset(outs, i)] == SimplifiedToken(words[i])
      && |outs[i].bonus| <= 1
      && (i + 1 < |words| ==> Offset(outs, i) < Offset(outs, i + 1))
  {
    var outs := Run(words, sound, coin).0;
    var body := Flatten(outs);
    RunShape(words, sound, coin, i);
    ContributionAt(outs, i);
    OffsetStep(outs, i);
    PigeonTokensTopUp(words, sound, coin);
    assert body[Offset(outs, i)] == Tokens(outs[i])[0];
  }

  /** An input with no words gives three sounds joined by single spaces. */
  lemma EmptyInput(humanText: string, sound: SoundStream, coin: CoinStream)
    requires Split(humanText) == []
    ensures var a, b, c := PigeonSound(sound(0)), PigeonSound(sound(1)), PigeonSound(sound(2));
      && IsSound(a) && IsSound(b) && IsSound(c)
      && Join(PigeonTokens(Split(humanText), sound, coin), " ") == a + " " + b + " " + c
  {
    JoinThree(PigeonSound(sound(0)), PigeonSound(sound(1)), PigeonSound(sound(2)));
  }

  /** One pass of the loop body of `translate_to_pigeon` (lines 71-82):
      appends the contribution of `word` at position `i` to `out`, drawing
      sounds and coins from cursor `c` on. */
  method AppendWord(out: seq<string>, word: string, i: nat, c: Cursor, sound: SoundStream, coin: CoinStream)
    returns (out': seq<string>, c': Cursor)
    ensures var step := WordStep(word, i, c, sound, coin);
      out' == out + Tokens(step.0) && c' == step.1
  {
    var ks: int, kc := c.sounds, c.coins;
    var s := SimplifyWord(word, sound(ks));
    out' := out + [s.token];
    if s.drewSound {
      ks := ks + 1;
    }
    var guard := PigeonSound(sound(ks));
    assert s.token != guard;
    ks := ks + 1;
    var bonus: seq<string> := [];
    if s.token != guard {
      if coin(kc) {
        bonus := [PigeonSound(sound(ks))];
        out' := out' + bonus;
        ks := ks + 1;
      }
      kc := kc + 1;
    }
    var sep: seq<string> := [];
    if i % 3 == 0 && i != 0 {
      if coin(kc) {
        sep := ["Flap-flurry!"];
      } else {
        sep := ["..."];
      }
      out' := out' + sep;
      kc := kc + 1;
    }
    c' := Cursor(ks, kc);
    assert WordStep(word, i, c, sound, coin) == (WordOutput(s.token, bonus, sep), c');
    assert out' == out + [s.token] + bonus + sep;
    AppendAssoc(out, [s.token], bonus);
    AppendAssoc(out, [s.token] + bonus, sep);
  }

  /** The loop over the first `i + 1` words is the loop over the first `i`
      followed by one step. */
  lemma RunStep(words: seq<string>, i: nat, sound: SoundStream, coin: CoinStream)
    requires i < |words|
    ensures var prev := Run(words[..i], sound, coin);
      var step := WordStep(words[i], i, prev.1, sound, coin);
      && Run(words[..i + 1], sound, coin) == (prev.0 + [step.0], step.1)
      && Flatten(prev.0 + [step.0]) == Flatten(prev.0) + Tokens(step.0)
  {
    var prev := Run(words[..i], sound, coin);
    var step := WordStep(words[i], i, prev.1, sound, coin);
    assert words[..i + 1][..i] == words[..i];
    assert (prev.0 + [step.0])[..i] == prev.0;
  }

  /** The loop of `translate_to_pigeon` over all of `words` (lines 70-82):
      `pigeon_output` as it stands after the last word, and the number of
      sounds drawn. */
  method TranslateWords(words: seq<string>, sound: SoundStream, coin: CoinStream)
    returns (out: seq<string>, drawn: nat)
    ensures out == Flatten(Run(words, sound, coin).0)
    ensures drawn == Run(words, sound, coin).1.sounds
  {
    out := [];
    var c := Cursor(0, 0);
    for i := 0 to |words|
      invariant c == Run(words[..i], sound, coin).1
      invariant out == Flatten(Run(words[..i], sound, coin).0)
    {
      RunStep(words, i, sound, coin);
      out, c := AppendWord(out, words[i], i, c, sound, coin);
    }
    assert words[..|words|] == words;
    drawn := c.sounds;
  }

  /** `translate_to_pigeon(human_text)`: the space-joined `PigeonTokens` of
      the input's words, so splitting the result gives those tokens back. */
  method TranslateToPigeon(humanText: string, sound: SoundStream, coin: CoinStream) returns (r: string)
    ensures r == Join(PigeonTokens(Split(humanText), sound, coin), " ")
    ensures Split(r) == PigeonTokens(Split(humanText), sound, coin)
  {
    var words := Split(humanText);
    PigeonTokensVocabulary(words, sound, coin);
    if words == [] {
      var a, b, c := PigeonSound(sound(0)), PigeonSound(sound(1)), PigeonSound(sound(2));
      r := a + " " + b + " " + c;
      JoinThree(a, b, c);
      SplitJoin([a, b, c]);
      return;
    }
    var out, ks := TranslateWords(words, sound, coin);
    ghost var run := Run(words, sound, coin);
    PigeonTokensTopUp(words, sound, coin);
    if |out| < 5 && |words| > 0 {
      out := out + [PigeonSound(sound(ks)), PigeonSound(sound(ks + 1))];
      assert out == Flatten(run.0) + TopUp(run.1, sound);
    }
    CleanJoin(out);
    r := Strip(Replace(Join(out, " "), "  ", " "), IsSpace);
  }
}
