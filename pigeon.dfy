/** The vocabulary of the translator: the four random interjections of
    `pigeon_sound` and the ordered keyword rules of `simplify_word`. */
module Pigeon {
  import opened PyStr

  /** `random.choice` over the four sounds is modelled by the index it picks. */
  type SoundIndex = k: int | 0 <= k < 4

  const Sounds: seq<string> := ["Coo!", "Coo-coo!", "Rrrruh...", "Whirr!"]

  /** One of the four sounds, spelled out rather than `t in Sounds`: the
      membership test made the solver unfold the sequence in every caller. */
  predicate IsSound(t: string) {
    t == "Coo!" || t == "Coo-coo!" || t == "Rrrruh..." || t == "Whirr!"
  }

  /** `pigeon_sound()`, given the index that `random.choice` picked. */
  function PigeonSound(k: SoundIndex): (r: string)
    ensures IsSound(r)
  {
    Sounds[k]
  }

  /** One operand of a Python `or` chain in `simplify_word`: either the test
      `keyword in word`, or a bare string literal, which Python evaluates as
      true when it is non-empty, whatever the word is. */
  datatype Operand = In(keyword: string) | Bare(literal: string)

  /** One `if` of `simplify_word`: its `or`-joined operands and the token it returns. */
  datatype Rule = Rule(operands: seq<Operand>, token: string)

  const RuleCount := 12

  /** The twelve rules, in source order, with the operands exactly as written. */
  function RuleAt(i: nat): Rule
    requires i < RuleCount
  {
    match i
    case 0 => Rule([In("food"), In("eat"), In("seed"), In("yum")], "Grain!")
    case 1 => Rule([In("fly"), In("wing"), Bare("air"), In("sky")], "Sky!")
    case 2 => Rule([In("home"), In("nest"), Bare("roost"), In("place")], "Perch!")
    case 3 => Rule([In("friend"), Bare("pal"), Bare("mate"), In("fellow")], "Flock!")
    case 4 => Rule([In("danger"), Bare("cat"), Bare("hawk"), Bare("threat"), In("scary")], "Threat!")
    case 5 => Rule([In("water"), Bare("drink"), In("liquid")], "Drip!")
    case 6 => Rule([In("hello"), Bare("hi"), Bare("greet"), In("hey")], "Coo?")
    case 7 => Rule([In("goodbye"), Bare("bye"), In("farewell")], "Flap!")
    case 8 => Rule([In("yes"), In("ok"), In("affirmative")], "Nod!")
    case 9 => Rule([In("no"), In("negative")], "Shake!")
    case 10 => Rule([In("love"), In("care"), In("like")], "Preen!")
    case _ => Rule([In("walk"), In("move"), In("go")], "Waddle!")
  }

  /** Python truthiness of one operand against the lower-cased word. */
  predicate Holds(op: Operand, word: string) {
    match op
    case In(k) => Contains(word, k)
    case Bare(lit) => lit != ""
  }

  /** The `or` chain of a rule is truthy. */
  predicate Fires(rule: Rule, word: string) {
    exists j :: 0 <= j < |rule.operands| && Holds(rule.operands[j], word)
  }

  /** The token of the first rule from position `i` on that fires, if any. */
  function FirstRule(i: nat, word: string): Option<string>
    requires i <= RuleCount
    decreases RuleCount - i
  {
    if i == RuleCount then None
    else if Fires(RuleAt(i), word) then Some(RuleAt(i).token)
    else FirstRule(i + 1, word)
  }

  datatype Option<T> = None | Some(value: T)

  /** The keyword test of the first rule, stated on its own. */
  predicate IsFoodWord(w: string) {
    Contains(w, "food") || Contains(w, "eat") || Contains(w, "seed") || Contains(w, "yum")
  }

  /** What `simplify_word` returns for `word`, stated independently of the
      rule cascade: `"Grain!"` for a food word and `"Sky!"` for any other. */
  function SimplifiedToken(word: string): string {
    if IsFoodWord(LowerStr(word)) then "Grain!" else "Sky!"
  }

  /** The result of `simplify_word`, and whether it drew a random sound
      (which it does only when no rule fires). */
  datatype Simplified = Simplified(token: string, drewSound: bool)

  /** `simplify_word(word)`; `draw` is the sound `random.choice` would pick at
      the fallback. Because the bare `"air"` makes the second rule fire for
      every word, the result is `"Grain!"` for a food word, `"Sky!"` for every
      other word, and the fallback never runs. */
  function SimplifyWord(word: string, draw: SoundIndex): (r: Simplified)
    ensures !r.drewSound
    ensures r.token == SimplifiedToken(word)
    ensures r.token == "Grain!" <==> IsFoodWord(LowerStr(word))
    ensures r.token == "Sky!" <==> !IsFoodWord(LowerStr(word))
    ensures !IsSound(r.token)
  {
    var w := LowerStr(word);
    FoodRule(w);
    OnlyFirstTwoRulesMatter(w);
    match FirstRule(0, w)
    case Some(t) => Simplified(t, false)
    case None => Simplified(PigeonSound(draw), true)
  }

  /** The first rule fires exactly on the food keywords. */
  lemma FoodRule(w: string)
    ensures Fires(RuleAt(0), w) <==> IsFoodWord(w)
  {
    var ops := RuleAt(0).operands;
    if IsFoodWord(w) {
      if Contains(w, "food") { assert Holds(ops[0], w); }
      else if Contains(w, "eat") { assert Holds(ops[1], w); }
      else if Contains(w, "seed") { assert Holds(ops[2], w); }
      else { assert Holds(ops[3], w); }
    }
  }

  /** Because the second rule always fires, the cascade never looks past it:
      lines 37-57 of `simplify_word` are unreachable. */
  lemma OnlyFirstTwoRulesMatter(w: string)
    ensures FirstRule(0, w) == if Fires(RuleAt(0), w) then Some("Grain!") else Some("Sky!")
  {
    SkyRuleAlwaysFires(w);
  }

  /** The bare `"air"` operand makes the second rule fire for every word. */
  lemma SkyRuleAlwaysFires(w: string)
    ensures Fires(RuleAt(1), w)
  {
    assert Holds(RuleAt(1).operands[2], w);
  }
}
