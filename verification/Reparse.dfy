/**
  Parsing a vector that a parse has already partitioned.  The same calls return
  the same results and no word moves again, unless the last option was missing
  its argument and there are non-options behind it for it to take.
 */
module GetoptReparse {
  import opened GetoptScanner
  import opened GetoptSpec
  import opened Words

  // ----- an option without its argument

  /** A long option that needs an argument from the next word, and there is none. */
  predicate LongStarves(c: Config, words: seq<string>, body: string, q: nat) {
    && body != "" && q == |words|
    && var eq := FirstIndex(body, '=');
    var m := LongMatch(c.longOptions, if eq == -1 then body else body[..eq], 0, -1);
    m >= 0 && c.longOptions[m].hasArg.RequiredArgument? && !(eq != -1 && eq + 1 < |body|)
  }

  /** The same of a short option, or of -W with or without the text of a long one. */
  predicate ShortStarves(c: Config, words: seq<string>, place: string, p: nat)
    requires p < |words| && place != ""
  {
    var letters := c.Letters();
    var letter, rest := place[0], place[1..];
    var i := if letter == ':' then -1 else FirstIndex(letters, letter);
    && i != -1
    && if letter == 'W' && CharAt(letters, i + 1) == ';' then
         if rest != "" then LongStarves(c, words, rest, p + 1)
         else p + 1 == |words| || LongStarves(c, words, words[p + 1], p + 2)
       else
         && CharAt(letters, i + 1) == ':' && rest == "" && CharAt(letters, i + 2) != ':'
         && p + 1 == |words|
  }

  predicate Starves(c: Config, words: seq<string>, place: string, p: nat)
    requires p < |words| && (place == "" ==> !IsNonOption(words[p]))
  {
    if place != "" then ShortStarves(c, words, place, p)
    else if words[p][1] == '-' then LongStarves(c, words, words[p][2..], p + 1)
    else ShortStarves(c, words, words[p][1..], p)
  }

  /** The parse comes to such an option, which is then its last. */
  predicate Starved(c: Config, words: seq<string>, place: string, p: nat)
    requires p <= |words| && (place != "" ==> p < |words|)
    decreases |words| - p, if place == "" && p < |words| then |words[p]| else |place|
  {
    if p == |words| then false
    else if place == "" && IsNonOption(words[p]) then
      !c.Mode().StopAtFirst? && Starved(c, words, "", p + 1)
    else
      var s := NextStep(c, words, place, p);
      Starves(c, words, place, p) || (s.Step? && Starved(c, words, s.place, s.next))
  }

  // ----- chosen words, from the front

  lemma {:induction false} ChosenHead(words: seq<string>, mask: seq<bool>, b: bool)
    requires |mask| <= |words| && mask != []
    ensures Chosen(words, mask, b) == (if mask[0] == b then [words[0]] else []) + Chosen(words[1..], mask[1..], b)
    decreases |mask|
  {
    hide Chosen;
    var k := |mask|;
    ChosenLast(words, mask, b);
    ChosenNone(words, b);
    ChosenNone(words[1..], b);
    if k > 1 {
      ChosenHead(words, mask[..k - 1], b);
      ChosenLast(words[1..], mask[1..], b);
      assert mask[..k - 1][1..] == mask[1..][..k - 2];
    }
  }

  lemma ChosenLast(words: seq<string>, mask: seq<bool>, b: bool)
    requires 0 < |mask| <= |words|
    ensures Chosen(words, mask, b)
         == Chosen(words, mask[..|mask| - 1], b) + if mask[|mask| - 1] == b then [words[|mask| - 1]] else []
  {
  }

  lemma ChosenNone(words: seq<string>, b: bool)
    ensures Chosen(words, [], b) == []
  {
  }

  /** Options come first, as a block. */
  lemma {:induction false} ChosenTrues(words: seq<string>, k: nat, mask: seq<bool>)
    requires k + |mask| <= |words|
    ensures Chosen(words, Trues(k) + mask, true) == words[..k] + Chosen(words[k..], mask, true)
    decreases k
  {
    hide Chosen;
    if k == 0 {
      assert Trues(0) + mask == mask && words[0..] == words;
    } else {
      ChosenHead(words, Trues(k) + mask, true);
      ChosenTrues(words[1..], k - 1, mask);
      assert (Trues(k) + mask)[1..] == Trues(k - 1) + mask;
      SplitFirst(words, k);
    }
  }

  lemma SplitFirst(words: seq<string>, k: nat)
    requires 0 < k <= |words|
    ensures words[1..][k - 1..] == words[k..] && words[..k] == [words[0]] + words[1..][..k - 1]
  {
  }

  lemma {:induction false} ChosenOthers(words: seq<string>, mask: seq<bool>, w: string)
    requires |mask| <= |words| && w in Chosen(words, mask, false)
    ensures exists k :: 0 <= k < |mask| && !mask[k] && words[k] == w
    decreases |mask|
  {
    hide Chosen;
    ChosenNone(words, false);
    ChosenHead(words, mask, false);
    if mask[0] || w != words[0] {
      ChosenOthers(words[1..], mask[1..], w);
      var k :| 0 <= k < |mask[1..]| && !mask[1..][k] && words[1..][k] == w;
      assert !mask[k + 1] && words[k + 1] == w;
    }
  }

  // ----- the same step in another vector

  /** A step d words further on. */
  function Moved(s: Step, d: int): Step
    requires s.next + d >= 0
  {
    s.(next := s.next + d)
  }

  /** The words that a step consumes stand in both vectors, the first of them in any case. */
  ghost predicate SameAhead(words: seq<string>, p: nat, again: seq<string>, p2: nat, next: nat) {
    && p < |words| && p <= next <= |words| && p2 < |again| && words[p] == again[p2]
    && p2 + (next - p) <= |again|
    && forall i :: p <= i < next ==> words[i] == again[i - p + p2]
  }

  lemma LongStepMoves(c: Config, words: seq<string>, body: string, q: nat, again: seq<string>, q2: nat)
    requires q <= |words| && q2 <= |again|
    requires
      var n := LongStep(c, words, body, q).next - q;
      q2 + n <= |again| && (n == 1 ==> words[q] == again[q2])
    ensures
      if LongStarves(c, words, body, q) then
        LongStep(c, words, body, q).next == q && (q2 < |again| ==> LongStep(c, again, body, q2).next > q2)
      else LongStep(c, again, body, q2) == Moved(LongStep(c, words, body, q), q2 - q)
  {
  }

  lemma ShortStepMoves(c: Config, words: seq<string>, place: string, p: nat, again: seq<string>, p2: nat)
    requires p < |words| && place != ""
    requires SameAhead(words, p, again, p2, ShortStep(c, words, place, p).next)
    ensures
      var next := ShortStep(c, words, place, p).next;
      if ShortStarves(c, words, place, p) then
        next == |words| && (p2 + (next - p) < |again| ==> ShortStep(c, again, place, p2).next > p2 + (next - p))
      else ShortStep(c, again, place, p2) == Moved(ShortStep(c, words, place, p), p2 - p)
  {
    hide LongStep;
    var letters := c.Letters();
    var i := if place[0] == ':' then -1 else FirstIndex(letters, place[0]);
    if i != -1 && place[0] == 'W' && CharAt(letters, i + 1) == ';' {
      if place[1..] != "" {
        LongStepMoves(c, words, place[1..], p + 1, again, p2 + 1);
      } else if p + 1 < |words| {
        LongStepMoves(c, words, words[p + 1], p + 2, again, p2 + 2);
      }
    }
  }

  /** A step that does not lack its argument is the same; one that does takes a further word if there is one. */
  lemma StepMoves(c: Config, words: seq<string>, place: string, p: nat, again: seq<string>, p2: nat)
    requires p < |words| && (place == "" ==> !IsNonOption(words[p]))
    requires CanTake(words, p, NextStep(c, words, place, p))
    requires SameAhead(words, p, again, p2, NextStep(c, words, place, p).next)
    ensures
      var next := NextStep(c, words, place, p).next;
      if Starves(c, words, place, p) then
        && next == |words|
        && (p2 + (next - p) < |again| ==> NextStep(c, again, place, p2).next > p2 + (next - p))
      else NextStep(c, again, place, p2) == Moved(NextStep(c, words, place, p), p2 - p)
  {
    hide LongStep, ShortStep, ShortStarves;
    if place != "" {
      ShortStepMoves(c, words, place, p, again, p2);
    } else if words[p][1] == '-' {
      LongStepMoves(c, words, words[p][2..], p + 1, again, p2 + 1);
    } else {
      ShortStepMoves(c, words, words[p][1..], p, again, p2);
    }
  }

  // ----- the rest of the parse in the partitioned vector

  /** The word that a step is taken in belongs to the options. */
  lemma {:induction false} FirstIsOption(c: Config, words: seq<string>, place: string, p: nat)
    requires p < |words| && (place == "" ==> !IsNonOption(words[p]))
    ensures Scan(c, words, place, p).isOption != [] && Scan(c, words, place, p).isOption[0]
    decreases |place| + if place == "" then |words[p]| else 0
  {
    hide LongStep;
    ScanIsResume(c, words, place, p);
    var s := NextStep(c, words, place, p);
    if s.next == p {
      FirstIsOption(c, words, s.place, p);
    }
  }

  lemma {:induction false} SkipAll(c: Config, words: seq<string>, p: nat)
    requires p <= |words| && c.Mode() == Permute && forall i :: p <= i < |words| ==> IsNonOption(words[i])
    ensures Scan(c, words, "", p) == Parse(seq(|words| - p, _ => false), [END])
    decreases |words| - p
  {
    ScanAtNonOption(c, words, p);
    if p < |words| {
      SkipAll(c, words, p + 1);
    }
  }

  /** From p2 on, the vector again holds the options from p on, the non-options, and what is not scanned. */
  ghost predicate Behind(c: Config, words: seq<string>, place: string, p: nat, again: seq<string>, p2: nat,
      others: seq<string>)
    requires p <= |words| && p2 <= |again| && (place != "" ==> p < |words|)
  {
    var m := Scan(c, words, place, p).isOption;
    again[p2..] == Chosen(words[p..], m, true) + others + words[p + |m|..]
  }

  /** The parse of it: the options, and then non-options to the end or not at all. */
  ghost predicate SameParse(r: Parse, k: nat, r2: Parse) {
    && r2.calls == r.calls
    && |r2.isOption| >= k
    && r2.isOption == Trues(k) + seq(|r2.isOption| - k, _ => false)
  }

  lemma SplitAhead(now: seq<string>, tail: seq<string>, p2: nat, again: seq<string>)
    requires p2 <= |again| && again[p2..] == now + tail
    ensures p2 + |now| <= |again| && again[p2 + |now|..] == tail
    ensures forall i :: 0 <= i < |now| ==> again[i + p2] == now[i]
  {
    forall i | 0 <= i < |now|
      ensures again[i + p2] == now[i]
    {
      assert again[p2..][i] == (now + tail)[i];
    }
    assert again[p2 + |now|..] == again[p2..][|now|..];
  }

  lemma ChosenFirst(words: seq<string>, mask: seq<bool>)
    requires |mask| <= |words| && mask != [] && mask[0]
    ensures Chosen(words, mask, true) != [] && Chosen(words, mask, true)[0] == words[0]
  {
  }

  /** What is decided about the words behind a step. */
  function Later(c: Config, words: seq<string>, p: nat, s: Step): seq<bool>
    requires CanTake(words, p, s)
  {
    if s.Delimiter? then [] else Scan(c, words, s.place, s.next).isOption
  }

  /** A parse unfolded: the words of the next step, and those behind it. */
  lemma ScanNext(c: Config, words: seq<string>, place: string, p: nat)
    requires p < |words| && (place == "" ==> !IsNonOption(words[p]))
    ensures
      var s := NextStep(c, words, place, p);
      && CanTake(words, p, s)
      && Scan(c, words, place, p) == Resume(c, words, p, s)
      && s.next + |Later(c, words, p, s)| <= |words|
      && Scan(c, words, place, p).isOption == Trues(s.next - p) + Later(c, words, p, s)
      && Chosen(words[p..], Scan(c, words, place, p).isOption, true)
         == words[p..s.next] + Chosen(words[s.next..], Later(c, words, p, s), true)
  {
    hide Chosen, Scan, NextStep, Trues;
    ScanIsResume(c, words, place, p);
    var s := NextStep(c, words, place, p);
    assert Trues(s.next - p) + [] == Trues(s.next - p);
    ChosenAhead(words, p, s.next, Later(c, words, p, s));
  }

  lemma ChosenAhead(words: seq<string>, p: nat, next: nat, later: seq<bool>)
    requires p <= next && next + |later| <= |words|
    ensures Chosen(words[p..], Trues(next - p) + later, true) == words[p..next] + Chosen(words[next..], later, true)
  {
    hide Chosen, Trues;
    ChosenTrues(words[p..], next - p, later);
    assert words[p..][next - p..] == words[next..] && words[p..][..next - p] == words[p..next];
  }

  /** The words that the next step consumes are at hand again, and what follows them is behind. */
  lemma BehindStep(c: Config, words: seq<string>, place: string, p: nat, again: seq<string>, p2: nat,
      others: seq<string>)
    requires p < |words| && p2 <= |again| && (place == "" ==> !IsNonOption(words[p]))
    requires Behind(c, words, place, p, again, p2, others)
    ensures
      var s := NextStep(c, words, place, p);
      && CanTake(words, p, s)
      && SameAhead(words, p, again, p2, s.next)
      && again[p2 + (s.next - p)..] == Chosen(words[s.next..], Later(c, words, p, s), true)
         + others + words[s.next + |Later(c, words, p, s)|..]
  {
    hide NextStep, Scan, Chosen, Trues;
    ScanNext(c, words, place, p);
    var s, m := NextStep(c, words, place, p), Scan(c, words, place, p).isOption;
    var later := Later(c, words, p, s);
    var tail := Chosen(words[s.next..], later, true) + others + words[s.next + |later|..];
    assert again[p2..] == words[p..s.next] + tail;
    SplitAhead(words[p..s.next], tail, p2, again);
    FirstIsOption(c, words, place, p);
    ChosenFirst(words[p..], m);
    assert again[p2..][0] == words[p];
  }

  /** The parse again comes out the same, or takes a non-option for the argument that was missing. */
  ghost predicate Alike(c: Config, words: seq<string>, place: string, p: nat, again: seq<string>, p2: nat)
    requires p <= |words| && (place != "" ==> p < |words|)
    requires p2 <= |again| && (place != "" ==> p2 < |again|)
  {
    var r := Scan(c, words, place, p);
    AlikeParses(Starved(c, words, place, p), r, |Chosen(words[p..], r.isOption, true)|, Scan(c, again, place, p2))
  }

  ghost predicate AlikeParses(starved: bool, r: Parse, k: nat, r2: Parse) {
    if starved then Trues(k + 1) <= r2.isOption else SameParse(r, k, r2)
  }

  /** With the same step ahead of both. */
  lemma StepAhead(n: nat, call: Call, starved: bool, r: Parse, k: nat, r2: Parse)
    requires AlikeParses(starved, r, k, r2)
    ensures AlikeParses(starved, Parse(Trues(n) + r.isOption, [call] + r.calls), n + k,
                        Parse(Trues(n) + r2.isOption, [call] + r2.calls))
  {
    hide Trues;
    MoreTrues(n, if starved then k + 1 else k, r2.isOption);
    assert n + k + 1 == n + (k + 1);
  }

  lemma AlikeAtEnd(c: Config, words: seq<string>, again: seq<string>, p2: nat, others: seq<string>)
    requires c.Mode() == Permute && forall w :: w in others ==> IsNonOption(w)
    requires p2 <= |again| && Behind(c, words, "", |words|, again, p2, others)
    ensures Alike(c, words, "", |words|, again, p2)
  {
    assert words[|words|..] == [] && again[p2..] == others;
    forall i | p2 <= i < |again|
      ensures IsNonOption(again[i])
    {
      assert again[i] == again[p2..][i - p2];
    }
    SkipAll(c, again, p2);
  }

  lemma AlikeSkip(c: Config, words: seq<string>, p: nat, again: seq<string>, p2: nat, others: seq<string>)
    requires c.Mode() == Permute && p < |words| && p2 <= |again| && IsNonOption(words[p])
    requires Behind(c, words, "", p, again, p2, others)
    ensures Behind(c, words, "", p + 1, again, p2, others)
    ensures Alike(c, words, "", p + 1, again, p2) ==> Alike(c, words, "", p, again, p2)
  {
    hide Scan, Chosen;
    ScanAtNonOption(c, words, p);
    var m, m1 := Scan(c, words, "", p).isOption, Scan(c, words, "", p + 1).isOption;
    assert m[1..] == m1 && words[p..][1..] == words[p + 1..];
    ChosenHead(words[p..], m, true);
  }

  lemma MoreTrues(n: nat, k: nat, mask: seq<bool>)
    ensures Trues(k) <= mask ==> Trues(n + k) <= Trues(n) + mask
    ensures |mask| >= k && mask == Trues(k) + seq(|mask| - k, _ => false) ==>
              Trues(n) + mask == Trues(n + k) + seq(|mask| - k, _ => false)
  {
  }

  /** A last option without its argument takes at least one of the non-options. */
  lemma StarvedTakes(c: Config, words: seq<string>, place: string, p: nat, again: seq<string>, p2: nat,
      others: seq<string>)
    requires p < |words| && p2 <= |again| && (place == "" ==> !IsNonOption(words[p])) && others != []
    requires Behind(c, words, place, p, again, p2, others) && Starves(c, words, place, p)
    ensures p2 < |again| && Alike(c, words, place, p, again, p2)
  {
    hide NextStep, Scan, Starves, Chosen, Trues;
    BehindStep(c, words, place, p, again, p2, others);
    ScanNext(c, words, place, p);
    StepMoves(c, words, place, p, again, p2);
    ScanNext(c, again, place, p2);
    var s, s2 := NextStep(c, words, place, p), NextStep(c, again, place, p2);
    NothingLater(c, words, p, s);
    ChosenNone(words[s.next..], true);
    assert Starved(c, words, place, p);
    assert Trues(s.next - p + 1) <= Trues(s2.next - p2) by { FewerTrues(s.next - p + 1, s2.next - p2); }
  }

  lemma FewerTrues(j: nat, k: nat)
    requires j <= k
    ensures Trues(j) <= Trues(k)
  {
  }

  lemma NothingLater(c: Config, words: seq<string>, p: nat, s: Step)
    requires CanTake(words, p, s) && s.next == |words|
    ensures Later(c, words, p, s) == []
  {
  }

  lemma DelimiterAgain(c: Config, words: seq<string>, place: string, p: nat, again: seq<string>, p2: nat,
      others: seq<string>)
    requires p < |words| && p2 <= |again| && (place == "" ==> !IsNonOption(words[p]))
    requires Behind(c, words, place, p, again, p2, others) && !Starves(c, words, place, p)
    requires NextStep(c, words, place, p).Delimiter?
    ensures p2 < |again| && Alike(c, words, place, p, again, p2)
  {
    hide NextStep, Scan, Starves, Chosen;
    BehindStep(c, words, place, p, again, p2, others);
    ScanNext(c, words, place, p);
    StepMoves(c, words, place, p, again, p2);
    ScanNext(c, again, place, p2);
    ChosenNone(words[NextStep(c, words, place, p).next..], true);
  }

  /** A step that is taken again leaves what is behind it. */
  lemma StepAgain(c: Config, words: seq<string>, place: string, p: nat, again: seq<string>, p2: nat,
      others: seq<string>)
    requires p < |words| && p2 <= |again| && (place == "" ==> !IsNonOption(words[p]))
    requires Behind(c, words, place, p, again, p2, others) && !Starves(c, words, place, p)
    requires NextStep(c, words, place, p).Step?
    ensures p2 < |again|
    ensures
      var s := NextStep(c, words, place, p);
      && CanTake(words, p, s) && p2 + (s.next - p) <= |again|
      && Behind(c, words, s.place, s.next, again, p2 + (s.next - p), others)
      && (place == "" ==> !IsNonOption(again[p2]))
      && NextStep(c, again, place, p2) == Moved(s, p2 - p)
      && CanTake(again, p2, Moved(s, p2 - p))
  {
    hide NextStep, Scan, Starves, Chosen, Trues;
    BehindStep(c, words, place, p, again, p2, others);
    ScanNext(c, words, place, p);
    StepMoves(c, words, place, p, again, p2);
    ScanNext(c, again, place, p2);
  }

  lemma AlikeStep(c: Config, words: seq<string>, place: string, p: nat, again: seq<string>, p2: nat,
      others: seq<string>)
    requires p < |words| && (place == "" ==> !IsNonOption(words[p]))
    requires p2 < |again| && (place == "" ==> !IsNonOption(again[p2])) && !Starves(c, words, place, p)
    requires
      var s := NextStep(c, words, place, p);
      && s.Step? && CanTake(words, p, s) && p2 + (s.next - p) >= 0
      && NextStep(c, again, place, p2) == Moved(s, p2 - p) && CanTake(again, p2, Moved(s, p2 - p))
      && Alike(c, words, s.place, s.next, again, p2 + (s.next - p))
    ensures Alike(c, words, place, p, again, p2)
  {
    hide NextStep, Scan, Starves, Chosen, Trues, AlikeParses;
    ScanNext(c, words, place, p);
    ScanNext(c, again, place, p2);
    var s := NextStep(c, words, place, p);
    var r, r2 := Scan(c, words, s.place, s.next), Scan(c, again, s.place, p2 + (s.next - p));
    var k := |Chosen(words[s.next..], r.isOption, true)|;
    StepAhead(s.next - p, s.call, Starved(c, words, s.place, s.next), r, k, r2);
  }

  lemma StepShrinks(c: Config, words: seq<string>, place: string, p: nat)
    requires p < |words| && (place == "" ==> !IsNonOption(words[p])) && NextStep(c, words, place, p).Step?
    ensures NextStep(c, words, place, p).next == p ==>
              0 < |NextStep(c, words, place, p).place| < if place == "" then |words[p]| else |place|
  {
    hide LongStep, ShortStep;
  }

  lemma {:induction false} ScansAlike(c: Config, words: seq<string>, place: string, p: nat, again: seq<string>,
      p2: nat, others: seq<string>)
    requires c.Mode() == Permute && others != [] && forall w :: w in others ==> IsNonOption(w)
    requires p <= |words| && p2 <= |again| && (place != "" ==> p < |words|)
    requires Behind(c, words, place, p, again, p2, others)
    ensures place != "" ==> p2 < |again|
    ensures Alike(c, words, place, p, again, p2)
    decreases |words| - p, if place == "" && p < |words| then |words[p]| else |place|
  {
    hide Starves, NextStep, Chosen, Trues, Scan, Behind, Alike, Starved;
    if p == |words| {
      AlikeAtEnd(c, words, again, p2, others);
    } else if place == "" && IsNonOption(words[p]) {
      AlikeSkip(c, words, p, again, p2, others);
      ScansAlike(c, words, "", p + 1, again, p2, others);
    } else if Starves(c, words, place, p) {
      StarvedTakes(c, words, place, p, again, p2, others);
    } else if NextStep(c, words, place, p).Delimiter? {
      DelimiterAgain(c, words, place, p, again, p2, others);
    } else {
      var s := NextStep(c, words, place, p);
      StepAgain(c, words, place, p, again, p2, others);
      StepShrinks(c, words, place, p);
      ScansAlike(c, words, s.place, s.next, again, p2 + (s.next - p), others);
      AlikeStep(c, words, place, p, again, p2, others);
    }
  }

  // ----- parsing twice

  lemma {:induction false} AllOptions(words: seq<string>, mask: seq<bool>)
    requires |mask| <= |words| && Chosen(words, mask, false) == []
    ensures mask == Trues(|mask|) && Chosen(words, mask, true) == words[..|mask|]
    decreases |mask|
  {
    hide Chosen;
    if mask == [] {
      ChosenNone(words, true);
      assert Trues(0) == [] && words[..0] == [];
    } else {
      ChosenHead(words, mask, false);
      ChosenHead(words, mask, true);
      AllOptions(words[1..], mask[1..]);
      assert mask == [true] + mask[1..];
      assert words[..|mask|] == [words[0]] + words[1..][..|mask| - 1];
    }
  }

  lemma {:induction false} ChosenOfFalses(words: seq<string>, mask: seq<bool>)
    requires |mask| <= |words| && forall i :: 0 <= i < |mask| ==> !mask[i]
    ensures Chosen(words, mask, true) == []
    ensures Chosen(words, mask, false) == words[..|mask|]
    decreases |mask|
  {
    hide Chosen;
    if mask == [] {
      ChosenNone(words, true);
      ChosenNone(words, false);
    } else {
      ChosenHead(words, mask, true);
      ChosenHead(words, mask, false);
      ChosenOfFalses(words[1..], mask[1..]);
    }
  }

  lemma {:induction false} TruesNotChosen(words: seq<string>, k: nat, mask: seq<bool>)
    requires k + |mask| <= |words|
    ensures Chosen(words, Trues(k) + mask, false) == Chosen(words[k..], mask, false)
    decreases k
  {
    hide Chosen;
    if k == 0 {
      assert Trues(0) + mask == mask && words[0..] == words;
    } else {
      ChosenHead(words, Trues(k) + mask, false);
      TruesNotChosen(words[1..], k - 1, mask);
      assert (Trues(k) + mask)[1..] == Trues(k - 1) + mask;
      assert words[1..][k - 1..] == words[k..];
    }
  }

  /** A vector whose options come first is partitioned. */
  lemma FirstThenOthers(words: seq<string>, k: nat, j: nat)
    requires 1 + k + j <= |words|
    ensures Partitioned(words, Trues(k) + seq(j, _ => false)) == words
    ensures |Pick(words, Trues(k) + seq(j, _ => false), true)| == k
  {
    hide Chosen;
    var falses := seq(j, _ => false);
    var mask := Trues(k) + falses;
    ChosenTrues(words[1..], k, falses);
    TruesNotChosen(words[1..], k, falses);
    ChosenOfFalses(words[1..][k..], falses);
  }

  /** Parsing again what the parse of words left, against the parse of words. */
  ghost predicate Repeats(c: Config, words: seq<string>, again: seq<string>)
    requires words != [] && again != []
  {
    var r, r2 := Scan(c, words, "", 1), Scan(c, again, "", 1);
    && r2.calls == r.calls && Partitioned(again, r2.isOption) == again
    && |Pick(again, r2.isOption, true)| == |Pick(words, r.isOption, true)|
  }

  /**
    Parsing the partitioned vector again returns the same calls, moves no word
    and leaves the same optind, exactly unless the last option lacked its
    argument and there is a non-option; then that becomes the argument.
   */
  lemma ParsedAgain(c: Config, words: seq<string>)
    requires words != []
    ensures
      var m := Scan(c, words, "", 1).isOption;
      var again := Partitioned(words, m);
      && again != []
      && (Repeats(c, words, again) <==> !(Starved(c, words, "", 1) && Pick(words, m, false) != []))
      && (!Repeats(c, words, again) ==>
            |Pick(again, Scan(c, again, "", 1).isOption, true)| > |Pick(words, m, true)|)
  {
    hide Starved, Scan, Chosen, Alike;
    var m := Scan(c, words, "", 1).isOption;
    var again, others := Partitioned(words, m), Pick(words, m, false);
    if others == [] {
      AllOptions(words[1..], m);
      assert again == words;
      AlreadyPartitioned(c, words);
    } else {
      OthersAreNonOptions(c, words);
      assert again[1..] == Pick(words, m, true) + others + words[1 + |m|..];
      ScansAlike(c, words, "", 1, again, 1, others);
      AlikeRepeats(c, words, again);
    }
  }

  lemma AlreadyPartitioned(c: Config, words: seq<string>)
    requires words != [] && Partitioned(words, Scan(c, words, "", 1).isOption) == words
    ensures Repeats(c, words, words)
  {
  }

  lemma OthersAreNonOptions(c: Config, words: seq<string>)
    requires words != [] && Pick(words, Scan(c, words, "", 1).isOption, false) != []
    ensures c.Mode() == Permute
    ensures forall w :: w in Pick(words, Scan(c, words, "", 1).isOption, false) ==> IsNonOption(w)
  {
    hide Scan, Chosen;
    var m := Scan(c, words, "", 1).isOption;
    forall w | w in Pick(words, m, false)
      ensures c.Mode() == Permute && IsNonOption(w)
    {
      ChosenOthers(words[1..], m, w);
      var k :| 0 <= k < |m| && !m[k] && words[1..][k] == w;
      ScanMovesOnlyNonOptions(c, words, "", 1, k);
    }
    assert Pick(words, m, false)[0] in Pick(words, m, false);
  }

  lemma PrefixPicked(words: seq<string>, k: nat, mask: seq<bool>)
    requires Trues(k) <= mask && |mask| < |words|
    ensures |Pick(words, mask, true)| >= k
  {
    hide Chosen;
    assert mask == Trues(k) + mask[k..];
    ChosenTrues(words[1..], k, mask[k..]);
  }

  lemma AlikeRepeats(c: Config, words: seq<string>, again: seq<string>)
    requires words != [] && |again| >= 1 && Alike(c, words, "", 1, again, 1)
    ensures
      var k := |Pick(words, Scan(c, words, "", 1).isOption, true)|;
      if Starved(c, words, "", 1) then |Pick(again, Scan(c, again, "", 1).isOption, true)| > k
      else Repeats(c, words, again)
  {
    hide Starved, Scan, Chosen, Partitioned, Trues;
    var m, m2 := Scan(c, words, "", 1).isOption, Scan(c, again, "", 1).isOption;
    var k := |Pick(words, m, true)|;
    if Starved(c, words, "", 1) {
      PrefixPicked(again, k + 1, m2);
    } else {
      FirstThenOthers(again, k, |m2| - k);
    }
  }

  /** An option that needs an argument, last of all, and a non-option before it. */
  lemma ArgumentTaken(c: Config)
    requires c == Config("a:", [], false)
    ensures Scan(c, ["p", "x", "-a"], "", 1) == Parse([false, true], [Call('?' as int, None, -1), END])
    ensures Partitioned(["p", "x", "-a"], [false, true]) == ["p", "-a", "x"]
    ensures Scan(c, ["p", "-a", "x"], "", 1) == Parse([true, true], [Call('a' as int, Some("x"), -1), END])
  {
    hide Scan, Partitioned;
    LastWithoutArgument(c, ["p", "x", "-a"]);
    OptionFirst(["p", "x", "-a"]);
    ArgumentBehind(c, ["p", "-a", "x"]);
  }

  lemma LastWithoutArgument(c: Config, words: seq<string>)
    requires c == Config("a:", [], false) && words == ["p", "x", "-a"]
    ensures Scan(c, words, "", 1) == Parse([false, true], [Call('?' as int, None, -1), END])
  {
    hide Scan, ShortStep;
    LetterA(c, words, 2);
    ScanAtNonOption(c, words, 1);
    ScanIsResume(c, words, "", 2);
    ScanAtNonOption(c, words, 3);
  }

  lemma OptionFirst(words: seq<string>)
    requires words == ["p", "x", "-a"]
    ensures Partitioned(words, [false, true]) == ["p", "-a", "x"]
  {
    var after, mask := words[1..], [false, true];
    assert mask[1..] == [true] && after[1..] == ["-a"] && mask[1..][1..] == [];
    forall b: bool
      ensures Chosen(after, mask, b) == if b then ["-a"] else ["x"]
    {
      ChosenHead(after, mask, b);
      ChosenHead(after[1..], mask[1..], b);
    }
  }

  lemma ArgumentBehind(c: Config, words: seq<string>)
    requires c == Config("a:", [], false) && words == ["p", "-a", "x"]
    ensures Scan(c, words, "", 1) == Parse([true, true], [Call('a' as int, Some("x"), -1), END])
  {
    hide Scan, ShortStep;
    LetterA(c, words, 1);
    ScanIsResume(c, words, "", 1);
    ScanAtNonOption(c, words, 3);
  }

  lemma LetterA(c: Config, words: seq<string>, p: nat)
    requires c == Config("a:", [], false) && p < |words| && words[p] == "-a"
    ensures ShortStep(c, words, words[p][1..], p)
         == if p + 1 == |words| then Step(Call('?' as int, None, -1), "", p + 1)
            else Step(Call('a' as int, Some(words[p + 1]), -1), "", p + 2)
    ensures c.Mode() == Permute
  {
    assert words[p][1..] == "a" && c.Letters() == "a:" && FirstIndex("a:", 'a') == 0 && "a"[1..] == "";
  }
}
