/** What `reverse_translate_pigeon` makes of the output of
    `translate_to_pigeon`: every token of the pigeon text comes back as one
    phrase, decided by the token alone, so the meaning of the human words is
    never recovered. */
module RoundTrip {
  import opened PyStr
  import opened Pigeon
  import opened Forward
  import opened Reverse

  /** The phrase the reverse translation gives each token the forward
      translation can emit: the three sounds `Coo!`, `Coo-coo!` and `Whirr!`
      become "general observation", `Rrrruh...` "hesitation", the
      `Flap-flurry!` separator "activity", and the `...` separator and the two
      word tokens `Grain!` and `Sky!` "[unclear]". */
  function PigeonPhrase(t: string): (r: string)
    ensures IsFallbackPhrase(r) && r != "pause"
  {
    if t == "Coo!" || t == "Coo-coo!" || t == "Whirr!" then "general observation"
    else if t == "Rrrruh..." then "hesitation"
    else if t == "Flap-flurry!" then "activity"
    else "[unclear]"
  }

  /** A word without capitals is its own lower-casing. */
  lemma LowerKeeps(s: string)
    requires forall i :: 0 <= i < |s| ==> !('A' <= s[i] <= 'Z')
    ensures LowerStr(s) == s
  {
  }

  /** A token whose lower-casing has neither a `c` nor a `w` is only
      lower-cased by the rewriting. */
  lemma PlainToken(t: string, l: string)
    requires LowerStr(t) == l
    requires forall i :: 0 <= i < |l| ==> l[i] != 'c' && l[i] != 'w'
    ensures Normalise(t) == l
  {
    NoSoundPattern(l);
  }

  // The lemmas below take the token as a parameter constrained by
  // `requires t == "..."` instead of mentioning the literal in their
  // ensures: a literal argument lets the solver evaluate `Normalise`,
  // `Strip` and `Contains` on it in every caller, which made the case
  // analyses over the vocabulary too slow. Similar bodies for different
  // tokens are therefore kept apart on purpose.

  /** `Coo!` is only lower-cased. */
  lemma NormaliseCoo(t: string)
    requires t == "Coo!"
    ensures Normalise(t) == "coo!"
  {
    assert LowerStr(t) == "coo!";
  }

  /** `Coo-coo!` is rewritten to `coo!`. */
  lemma NormaliseCooCoo(t: string)
    requires t == "Coo-coo!"
    ensures Normalise(t) == "coo!"
  {
    var l := LowerStr(t);
    assert l == "coo-coo!";
    assert Replace(l, "coo-coo!", "coo!") == "coo!" + Replace([], "coo-coo!", "coo!");
  }

  /** `Whirr!` is rewritten to `coo!`. */
  lemma NormaliseWhirr(t: string)
    requires t == "Whirr!"
    ensures Normalise(t) == "coo!"
  {
    var l := LowerStr(t);
    assert l == "whirr!";
    assert Replace(l, "whirr!", "coo!") == "coo!" + Replace([], "whirr!", "coo!");
  }

  /** `Rrrruh...` is only lower-cased. */
  lemma NormaliseRrrruh(t: string)
    requires t == "Rrrruh..."
    ensures Normalise(t) == "rrrruh..."
  {
    PlainToken(t, "rrrruh...");
  }

  /** `Flap-flurry!` is only lower-cased. */
  lemma NormaliseFlurry(t: string)
    requires t == "Flap-flurry!"
    ensures Normalise(t) == "flap-flurry!"
  {
    PlainToken(t, "flap-flurry!");
  }

  /** `Grain!` is only lower-cased. */
  lemma NormaliseGrain(t: string)
    requires t == "Grain!"
    ensures Normalise(t) == "grain!"
  {
    PlainToken(t, "grain!");
  }

  /** `...` is left as it is. */
  lemma NormaliseEllipsis(t: string)
    requires t == "..."
    ensures Normalise(t) == "..."
  {
    assert LowerStr(t) == "...";
  }

  /** `Sky!` is only lower-cased. */
  lemma NormaliseSky(t: string)
    requires t == "Sky!"
    ensures Normalise(t) == "sky!"
  {
    assert LowerStr(t) == "sky!";
  }

  /** `coo!` cleans to `coo`: "general observation". */
  lemma CooPhrase(l: string)
    requires l == "coo!"
    ensures TokenPhrase(l) == "general observation"
  {
    StripBetween(l, IsStripped, 0, 3);
    var c := l[0..3];
    LowerKeeps(c);
    ContainsAt(c, "coo", 0);
  }

  /** `rrrruh...` cleans to `rrrruh`: "hesitation". */
  lemma RrrruhPhrase(l: string)
    requires l == "rrrruh..."
    ensures TokenPhrase(l) == "hesitation"
  {
    StripBetween(l, IsStripped, 0, 6);
    var c := l[0..6];
    assert forall i :: 0 <= i < |c| ==> c[i] == 'r' || c[i] == 'u' || c[i] == 'h';
    LowerKeeps(c);
    ContainsMissingChar(c, "coo", 0);
    ContainsMissingChar(c, "flurry", 0);
    ContainsMissingChar(c, "...", 0);
    ContainsAt(c, "rrrruh", 0);
  }

  /** `flap-flurry!` cleans to `flap-flurry`: "activity". */
  lemma FlurryPhrase(l: string)
    requires l == "flap-flurry!"
    ensures TokenPhrase(l) == "activity"
  {
    StripBetween(l, IsStripped, 0, 11);
    var c := l[0..11];
    LowerKeeps(c);
    ContainsMissingChar(c, "coo", 0);
    ContainsAt(c, "flurry", 5);
  }

  /** `...` is stripped away entirely, so the interior-run test for `...`
      cannot see it: "[unclear]". */
  lemma EllipsisPhrase(l: string)
    requires l == "..."
    ensures TokenPhrase(l) == "[unclear]"
  {
    StripBetween(l, IsStripped, 3, 3);
    assert CleanToken(l) == [];
  }

  /** `grain!` cleans to `grain`: "[unclear]". */
  lemma GrainPhrase(l: string)
    requires l == "grain!"
    ensures TokenPhrase(l) == "[unclear]"
  {
    StripBetween(l, IsStripped, 0, 5);
    var c := l[0..5];
    assert forall i :: 0 <= i < |c| ==> c[i] == 'g' || c[i] == 'r' || c[i] == 'a' || c[i] == 'i' || c[i] == 'n';
    LowerKeeps(c);
    ContainsMissingChar(c, "coo", 0);
    ContainsMissingChar(c, "flurry", 0);
    ContainsMissingChar(c, "...", 0);
    ContainsMissingChar(c, "rrrruh", 4);
  }

  /** `sky!` cleans to `sky`: "[unclear]". */
  lemma SkyPhrase(l: string)
    requires l == "sky!"
    ensures TokenPhrase(l) == "[unclear]"
  {
    StripBetween(l, IsStripped, 0, 3);
    var c := l[0..3];
    assert forall i :: 0 <= i < |c| ==> c[i] == 's' || c[i] == 'k' || c[i] == 'y';
    LowerKeeps(c);
    ContainsMissingChar(c, "coo", 0);
    ContainsMissingChar(c, "flurry", 0);
    ContainsMissingChar(c, "...", 0);
    ContainsMissingChar(c, "rrrruh", 0);
  }

  /** The rewritten vocabulary tokens are single words. */
  lemma NormalFormWord(l: string)
    requires l == "coo!" || l == "rrrruh..." || l == "flap-flurry!" || l == "..." || l == "grain!" || l == "sky!"
    ensures IsWord(l)
  {
  }

  /** `Coo!` reads back as `PigeonPhrase` says, as one word. */
  lemma CooToken(t: string)
    requires t == "Coo!"
    ensures IsWord(Normalise(t)) && TokenPhrase(Normalise(t)) == PigeonPhrase(t)
  {
    NormaliseCoo(t);
    CooPhrase(Normalise(t));
    NormalFormWord(Normalise(t));
  }

  /** `Coo-coo!` reads back as `PigeonPhrase` says, as one word. */
  lemma CooCooToken(t: string)
    requires t == "Coo-coo!"
    ensures IsWord(Normalise(t)) && TokenPhrase(Normalise(t)) == PigeonPhrase(t)
  {
    NormaliseCooCoo(t);
    CooPhrase(Normalise(t));
    NormalFormWord(Normalise(t));
  }

  /** `Whirr!` reads back as `PigeonPhrase` says, as one word. */
  lemma WhirrToken(t: string)
    requires t == "Whirr!"
    ensures IsWord(Normalise(t)) && TokenPhrase(Normalise(t)) == PigeonPhrase(t)
  {
    NormaliseWhirr(t);
    CooPhrase(Normalise(t));
    NormalFormWord(Normalise(t));
  }

  /** `Rrrruh...` reads back as `PigeonPhrase` says, as one word. */
  lemma RrrruhToken(t: string)
    requires t == "Rrrruh..."
    ensures IsWord(Normalise(t)) && TokenPhrase(Normalise(t)) == PigeonPhrase(t)
  {
    NormaliseRrrruh(t);
    RrrruhPhrase(Normalise(t));
    NormalFormWord(Normalise(t));
  }

  /** `Flap-flurry!` reads back as `PigeonPhrase` says, as one word. */
  lemma FlurryToken(t: string)
    requires t == "Flap-flurry!"
    ensures IsWord(Normalise(t)) && TokenPhrase(Normalise(t)) == PigeonPhrase(t)
  {
    NormaliseFlurry(t);
    FlurryPhrase(Normalise(t));
    NormalFormWord(Normalise(t));
  }

  /** `...` reads back as `PigeonPhrase` says, as one word. */
  lemma EllipsisToken(t: string)
    requires t == "..."
    ensures IsWord(Normalise(t)) && TokenPhrase(Normalise(t)) == PigeonPhrase(t)
  {
    NormaliseEllipsis(t);
    EllipsisPhrase(Normalise(t));
    NormalFormWord(Normalise(t));
  }

  /** `Grain!` reads back as `PigeonPhrase` says, as one word. */
  lemma GrainToken(t: string)
    requires t == "Grain!"
    ensures IsWord(Normalise(t)) && TokenPhrase(Normalise(t)) == PigeonPhrase(t)
  {
    NormaliseGrain(t);
    GrainPhrase(Normalise(t));
    NormalFormWord(Normalise(t));
  }

  /** `Sky!` reads back as `PigeonPhrase` says, as one word. */
  lemma SkyToken(t: string)
    requires t == "Sky!"
    ensures IsWord(Normalise(t)) && TokenPhrase(Normalise(t)) == PigeonPhrase(t)
  {
    NormaliseSky(t);
    SkyPhrase(Normalise(t));
    NormalFormWord(Normalise(t));
  }

  /** Each of the four sounds is still one word after the rewriting, and
      gets the phrase `PigeonPhrase` names. */
  lemma SoundPhrase(t: string)
    requires IsSound(t)
    ensures IsWord(Normalise(t)) && TokenPhrase(Normalise(t)) == PigeonPhrase(t)
  {
    if t == "Coo!" {
      CooToken(t);
    } else if t == "Coo-coo!" {
      CooCooToken(t);
    } else if t == "Whirr!" {
      WhirrToken(t);
    } else {
      RrrruhToken(t);
    }
  }

  /** The two separators and the two word tokens are only lower-cased by the
      rewriting, stay one word, and get the phrase `PigeonPhrase` names. */
  lemma PlainPhrase(t: string)
    requires IsSeparator(t) || t == "Grain!" || t == "Sky!"
    ensures IsWord(Normalise(t)) && TokenPhrase(Normalise(t)) == PigeonPhrase(t)
  {
    if t == "Flap-flurry!" {
      FlurryToken(t);
    } else if t == "..." {
      EllipsisToken(t);
    } else if t == "Grain!" {
      GrainToken(t);
    } else {
      SkyToken(t);
    }
  }

  /** Every token of the forward vocabulary is still one word after the
      rewriting, and the reverse translation gives it the phrase
      `PigeonPhrase` names. */
  lemma VocabularyPhrase(t: string)
    requires InVocabulary(t)
    ensures IsWord(Normalise(t)) && TokenPhrase(Normalise(t)) == PigeonPhrase(t)
  {
    if IsSound(t) {
      SoundPhrase(t);
    } else {
      PlainPhrase(t);
    }
  }

  /** Rewriting and splitting a space-joined list of vocabulary tokens gives
      back the rewritten tokens, one word each. */
  lemma ReverseTokensOfJoin(ts: seq<string>)
    requires forall k :: 0 <= k < |ts| ==> InVocabulary(ts[k])
    ensures ReverseTokens(Join(ts, " ")) == MapSeq(Normalise, ts)
  {
    NormaliseJoin(ts);
    var ns := MapSeq(Normalise, ts);
    forall k | 0 <= k < |ns| ensures IsWord(ns[k]) {
      MapSeqAt(Normalise, ts, k);
      VocabularyPhrase(ts[k]);
    }
    SplitJoin(ns);
  }

  /** The phrases of a space-joined list of vocabulary tokens, one per token. */
  lemma PhrasesOfTokens(ts: seq<string>)
    requires forall k :: 0 <= k < |ts| ==> InVocabulary(ts[k])
    ensures var ps := Phrases(ReverseTokens(Join(ts, " ")));
      |ps| == |ts| && forall k :: 0 <= k < |ps| ==> ps[k] == PigeonPhrase(ts[k])
  {
    ReverseTokensOfJoin(ts);
    var ns := MapSeq(Normalise, ts);
    forall k | 0 <= k < |ns|
      ensures Phrases(ns)[k] == PigeonPhrase(ts[k])
    {
      PhrasesAt(ns, k);
      MapSeqAt(Normalise, ts, k);
      VocabularyPhrase(ts[k]);
    }
  }

  /** Reading back a pigeon translation: the reverse translation of the text
      `translate_to_pigeon` returns has one phrase per pigeon token, in order,
      each the `PigeonPhrase` of its token; so it is never "pause" and never
      a concept from the lookup table. */
  lemma ReverseOfForward(text: string, sound: SoundStream, coin: CoinStream)
    ensures var ts := PigeonTokens(Split(text), sound, coin);
      var ps := Phrases(ReverseTokens(Join(ts, " ")));
      && |ps| == |ts|
      && forall k :: 0 <= k < |ps| ==> ps[k] == PigeonPhrase(ts[k]) && IsFallbackPhrase(ps[k]) && ps[k] != "pause"
  {
    var ts := PigeonTokens(Split(text), sound, coin);
    PigeonTokensVocabulary(Split(text), sound, coin);
    PhrasesOfTokens(ts);
  }
}
