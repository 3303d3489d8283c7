/** `reverse_translate_pigeon`, pigeon text back to human words. Each word of
    the lower-cased, normalised text becomes one phrase. */
module Reverse {
  import opened PyStr

  /** The lookup table of the pigeon tokens that name a concept. */
  const Mapping: map<string, string> := map[
    "grain!" := "food", "sky!" := "fly", "perch!" := "home", "flock!" := "friend",
    "threat!" := "danger", "drip!" := "water", "coo?" := "hello", "flap!" := "goodbye",
    "nod!" := "yes", "shake!" := "no", "preen!" := "love", "waddle!" := "walk"]

  /** The characters `strip(".,!?;:")` removes. */
  predicate IsStripped(c: char) {
    c == '.' || c == ',' || c == '!' || c == '?' || c == ';' || c == ':'
  }

  /** `word.strip(".,!?;:").lower()` */
  function CleanToken(w: string): string {
    LowerStr(Strip(w, IsStripped))
  }

  /** The phrases the cascade after the lookup can produce. */
  predicate IsFallbackPhrase(p: string) {
    p == "general observation" || p == "activity" || p == "pause" || p == "hesitation" || p == "[unclear]"
  }

  /** `t` ends in a character the strip removes. */
  predicate EndsStripped(t: string) {
    t != [] && IsStripped(t[|t| - 1])
  }

  /** Every key of the table ends in `!` or `?`. */
  lemma KeysEndStripped(t: string)
    requires t in Mapping
    ensures EndsStripped(t)
  {
  }

  /** A cleaned word never ends in a stripped character. */
  lemma CleanEnd(w: string)
    ensures !EndsStripped(CleanToken(w))
  {
    var s := Strip(w, IsStripped);
    var t := CleanToken(w);
    if t != [] {
      assert t[|t| - 1] == Lower(s[|s| - 1]);
    }
  }

  /** No cleaned word is ever a key, so the lookup never succeeds. */
  lemma CleanNotMapped(w: string)
    ensures CleanToken(w) !in Mapping
  {
    CleanEnd(w);
    if CleanToken(w) in Mapping {
      KeysEndStripped(CleanToken(w));
    }
  }

  /** The phrase the loop body produces for one word of the normalised text,
      stated without the table, whose lookup never succeeds (see
      `CleanNotMapped`). */
  function TokenPhrase(w: string): string {
    var cw := CleanToken(w);
    if Contains(cw, "coo") then "general observation"
    else if Contains(cw, "flurry") then "activity"
    else if Contains(cw, "...") then "pause"
    else if Contains(cw, "rrrruh") then "hesitation"
    else "[unclear]"
  }

  /** The phrase is decided by the first of `coo`, `flurry`, `...`,
      `rrrruh` that the cleaned word contains, and is `[unclear]` when it
      contains none; none of the table's concepts ("food", "fly", ...) can
      come out. */
  lemma TokenPhraseCases(w: string)
    ensures var r, cw := TokenPhrase(w), CleanToken(w);
      && IsFallbackPhrase(r)
      && (r == "general observation" <==> Contains(cw, "coo"))
      && (r == "activity" <==> !Contains(cw, "coo") && Contains(cw, "flurry"))
      && (r == "pause" <==> !Contains(cw, "coo") && !Contains(cw, "flurry") && Contains(cw, "..."))
      && (r == "[unclear]" <==>
            !Contains(cw, "coo") && !Contains(cw, "flurry") && !Contains(cw, "...") && !Contains(cw, "rrrruh"))
  {
  }

  /** The phrases of a list of words, one per word and in order. */
  function Phrases(ws: seq<string>): (r: seq<string>)
    ensures |r| == |ws|
  {
    MapSeq(TokenPhrase, ws)
  }

  /** The `k`-th phrase is the phrase of the `k`-th word. */
  lemma PhrasesAt(ws: seq<string>, k: nat)
    requires k < |ws|
    ensures Phrases(ws)[k] == TokenPhrase(ws[k])
  {
    MapSeqAt(TokenPhrase, ws, k);
  }

  /** One more word adds its phrase at the end. */
  lemma PhrasesStep(ws: seq<string>, i: nat)
    requires i < |ws|
    ensures Phrases(ws[..i + 1]) == Phrases(ws[..i]) + [TokenPhrase(ws[i])]
  {
    assert ws[..i + 1][..i] == ws[..i];
  }

  /** The rewriting before the split: the text lower-cased, then `coo-coo!`
      and then `whirr!` replaced by `coo!`. */
  function Normalise(text: string): string {
    Replace(Replace(LowerStr(text), "coo-coo!", "coo!"), "whirr!", "coo!")
  }

  /** The words the loop visits: the normalised text split on whitespace. */
  function ReverseTokens(text: string): seq<string> {
    Split(Normalise(text))
  }

  /** Text with neither a `c` nor a `w` is left alone by both rewrites. */
  lemma NoSoundPattern(l: string)
    requires forall i :: 0 <= i < |l| ==> l[i] != 'c' && l[i] != 'w'
    ensures Replace(Replace(l, "coo-coo!", "coo!"), "whirr!", "coo!") == l
  {
    ContainsMissingChar(l, "coo-coo!", 0);
    ReplaceAbsent(l, "coo-coo!", "coo!");
    ContainsMissingChar(l, "whirr!", 0);
    ReplaceAbsent(l, "whirr!", "coo!");
  }

  /** The rewritten text has no words exactly when the text as given has
      none: neither lower-casing nor the rewrites make or break whitespace. */
  lemma NoWordsIff(text: string)
    ensures ReverseTokens(text) == [] <==> Split(text) == []
  {
    var l := LowerStr(text);
    SplitEmptyIff(text);
    SplitEmptyIff(Normalise(text));
    if forall i :: 0 <= i < |text| ==> IsSpace(text[i]) {
      assert forall i :: 0 <= i < |l| ==> IsSpace(l[i]);
      NoSoundPattern(l);
    }
    if forall i :: 0 <= i < |Normalise(text)| ==> IsSpace(Normalise(text)[i]) {
      var m := Replace(l, "coo-coo!", "coo!");
      ReplaceAllSpace(m, "whirr!", "coo!");
      ReplaceAllSpace(l, "coo-coo!", "coo!");
      assert forall i :: 0 <= i < |text| ==> IsSpace(text[i]) by {
        forall i | 0 <= i < |text| ensures IsSpace(text[i]) {
          assert IsSpace(l[i]);
        }
      }
    }
  }

  /** Neither pattern of the rewriting holds a space, so the rewriting works
      on the two sides of a space separately. */
  lemma NormaliseAroundSpace(a: string, b: string)
    ensures Normalise(a + " " + b) == Normalise(a) + " " + Normalise(b)
  {
    LowerAppend(a, " ");
    LowerAppend(a + " ", b);
    assert LowerStr(" ") == " ";
    assert SpaceFree("coo-coo!") && SpaceFree("whirr!");
    ReplaceAroundSpace(LowerStr(a), LowerStr(b), "coo-coo!", "coo!");
    var l1, r1 := Replace(LowerStr(a), "coo-coo!", "coo!"), Replace(LowerStr(b), "coo-coo!", "coo!");
    ReplaceAroundSpace(l1, r1, "whirr!", "coo!");
  }

  /** Rewriting a space-joined text rewrites each of its parts. */
  lemma {:induction false} NormaliseJoin(ws: seq<string>)
    ensures Normalise(Join(ws, " ")) == Join(MapSeq(Normalise, ws), " ")
  {
    if |ws| == 0 {
      assert Normalise("") == "";
    } else if |ws| == 1 {
      MapSeqAt(Normalise, ws, 0);
    } else {
      NormaliseAroundSpace(ws[0], Join(ws[1..], " "));
      NormaliseJoin(ws[1..]);
      MapSeqHeadTail(Normalise, ws);
    }
  }

  /** The body of the loop of `reverse_translate_pigeon` for one word: the
      table lookup on the cleaned word, then the keyword cascade. */
  method WordPhrase(word: string) returns (phrase: string)
    ensures phrase == TokenPhrase(word)
  {
    var cleanWord := CleanToken(word);
    if cleanWord in Mapping {
      phrase := Mapping[cleanWord];
    } else if Contains(cleanWord, "coo") {
      phrase := "general observation";
    } else if Contains(cleanWord, "flurry") {
      phrase := "activity";
    } else if Contains(cleanWord, "...") {
      phrase := "pause";
    } else if Contains(cleanWord, "rrrruh") {
      phrase := "hesitation";
    } else {
      phrase := "[unclear]";
    }
    CleanNotMapped(word);
  }

  /** `reverse_translate_pigeon(pigeon_text)`: the phrases of the words,
      space-joined, capitalised and closed by a full stop. */
  method ReverseTranslatePigeon(pigeonText: string) returns (r: string)
    ensures r == Capitalize(Join(Phrases(ReverseTokens(pigeonText)), " ")) + "."
  {
    var text := LowerStr(pigeonText);
    var words := Split(Replace(Replace(text, "coo-coo!", "coo!"), "whirr!", "coo!"));
    var parts: seq<string> := [];
    for i := 0 to |words|
      invariant parts == Phrases(words[..i])
    {
      var phrase := WordPhrase(words[i]);
      PhrasesStep(words, i);
      parts := parts + [phrase];
    }
    assert words[..|words|] == words;
    r := Capitalize(Join(parts, " ")) + ".";
  }

  /** The reply always ends in a full stop, and is nothing but the full stop
      exactly when the text (as given, or rewritten) has no words; otherwise it opens with the first
      character of the joined phrases upper-cased. */
  lemma ReplyShape(text: string)
    ensures var j := Join(Phrases(ReverseTokens(text)), " ");
      var r := Capitalize(j) + ".";
      && |r| > 0 && r[|r| - 1] == '.'
      && (r == "." <==> ReverseTokens(text) == [])
      && (r == "." <==> Split(text) == [])
      && (ReverseTokens(text) != [] ==> |j| > 0 && r[0] == Upper(j[0]))
  {
    NoWordsIff(text);
    var ps := Phrases(ReverseTokens(text));
    if ps != [] {
      forall k | 0 <= k < |ps| ensures IsFallbackPhrase(ps[k]) {
        PhrasesAt(ReverseTokens(text), k);
        TokenPhraseCases(ReverseTokens(text)[k]);
      }
      JoinNonEmpty(ps);
    }
  }

  /** Phrases are never empty, so their join is not either. */
  lemma {:induction false} JoinNonEmpty(ps: seq<string>)
    requires ps != []
    requires forall k :: 0 <= k < |ps| ==> IsFallbackPhrase(ps[k])
    ensures |Join(ps, " ")| > 0
  {
    assert IsFallbackPhrase(ps[0]);
    if |ps| > 1 {
      assert Join(ps, " ") == ps[0] + " " + Join(ps[1..], " ");
    }
  }
}
