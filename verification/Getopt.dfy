/**
  getopt_long, driven over an argument vector that it permutes as it goes.
  Non-options it skips collect in one block of the vector; each time a later
  option has been passed, the block is exchanged with the options behind it.
 */
module GetoptScanner {
  import opened ArgumentPermutation
  import opened GetoptSpec
  import opened Words

  // ----- the words picked out of the scanned part

  lemma PickLengths(words: seq<string>, isOption: seq<bool>)
    requires |isOption| < |words|
    ensures |Pick(words, isOption, true)| + |Pick(words, isOption, false)| == |isOption|
    decreases |isOption|
  {
    if isOption != [] {
      PickLengths(words, isOption[..|isOption| - 1]);
    }
  }

  lemma PickLast(words: seq<string>, isOption: seq<bool>, b: bool)
    requires 0 < |isOption| < |words|
    ensures Pick(words, isOption, b) ==
            Pick(words, isOption[..|isOption| - 1],
                b) + (if isOption[|isOption| - 1] == b then [words[|isOption|]] else [])
  {
  }

  lemma PickAppend(words: seq<string>, isOption: seq<bool>, k: nat, b: bool, c: bool)
    requires |isOption| + k < |words|
    ensures Pick(words, isOption + seq(k, _ => c), b) ==
            if b == c then Pick(words, isOption, b) + words[|isOption| + 1..|isOption| + 1 + k]
            else Pick(words, isOption, b)
    decreases k
  {
    hide Pick;
    var more := isOption + seq(k, _ => c);
    if k == 0 {
      assert more == isOption;
    } else {
      PickAppend(words, isOption, k - 1, b, c);
      assert more[..|more| - 1] == isOption + seq(k - 1, _ => c);
      PickLast(words, more, b);
    }
  }

  /** Nothing is lost or invented: the two picks together hold exactly the scanned words. */
  lemma {:induction false} PickKeepsAll(words: seq<string>, isOption: seq<bool>, scanned: seq<string>)
    requires |isOption| < |words| && scanned == words[1..1 + |isOption|]
    ensures multiset(Pick(words, isOption, true)) + multiset(Pick(words, isOption, false)) == multiset(scanned)
    decreases |isOption|
  {
    hide Pick;
    if isOption == [] {
      PickLengths(words, isOption);
    } else {
      var k := |isOption| - 1;
      PickKeepsAll(words, isOption[..k], scanned[..k]);
      PickLast(words, isOption, true);
      PickLast(words, isOption, false);
      PickStep(words, isOption, isOption[..k], scanned[..k], scanned);
    }
  }

  lemma PickStep(words: seq<string>, isOption: seq<bool>, before: seq<bool>, scanned: seq<string>,
      scanned': seq<string>)
    requires 0 < |isOption| < |words| && |before| < |words| && scanned' == scanned + [words[|isOption|]]
    requires forall b :: Pick(words, isOption, b) ==
               Pick(words, before, b) + (if isOption[|isOption| - 1] == b then [words[|isOption|]] else [])
    requires multiset(Pick(words, before, true)) + multiset(Pick(words, before, false)) == multiset(scanned)
    ensures multiset(Pick(words, isOption, true)) + multiset(Pick(words, isOption, false)) == multiset(scanned')
  {
    hide Pick;
    PushEither(Pick(words, before, true), Pick(words, before, false), scanned, words[|isOption|]);
    assert Pick(words, isOption, !isOption[|isOption| - 1]) == Pick(words, before, !isOption[|isOption| - 1]);
  }

  lemma PushEither<T>(a: seq<T>, b: seq<T>, c: seq<T>, x: T)
    requires multiset(a) + multiset(b) == multiset(c)
    ensures multiset(a + [x]) + multiset(b) == multiset(c + [x])
    ensures multiset(a) + multiset(b + [x]) == multiset(c + [x])
  {
  }

  /** The vector a parse leaves is a permutation of the vector it was given. */
  lemma PartitionedIsPermutation(words: seq<string>, isOption: seq<bool>)
    requires |isOption| < |words|
    ensures multiset(Partitioned(words, isOption)) == multiset(words)
  {
    var m := 1 + |isOption|;
    PickKeepsAll(words, isOption, words[1..m]);
    assert words == words[..1] + words[1..m] + words[m..];
    Regroup(words[..1], Pick(words, isOption, true), Pick(words, isOption, false), words[m..], words[1..m]);
  }

  lemma Regroup<T>(a: seq<T>, b: seq<T>, c: seq<T>, d: seq<T>, bc: seq<T>)
    requires multiset(b) + multiset(c) == multiset(bc)
    ensures multiset(a + b + c + d) == multiset(a + bc + d)
  {
  }

  /** Only words that look like non-options are ever moved behind the options, and only in PERMUTE mode. */
  lemma {:induction false} ScanMovesOnlyNonOptions(c: Config, words: seq<string>, place: string, p: nat, k: nat)
    requires p <= |words| && (place != "" ==> p < |words|)
    requires k < |Scan(c, words, place, p).isOption| && !Scan(c, words, place, p).isOption[k]
    ensures c.Mode() == Permute && IsNonOption(words[p + k])
    decreases |words| - p, if place == "" && p < |words| then |words[p]| else |place|
  {
    if place != "" {
      AfterMovesOnlyNonOptions(c, words, p, ShortStep(c, words, place, p), |place|, k);
    } else if IsNonOption(words[p]) {
      if k > 0 {
        ScanMovesOnlyNonOptions(c, words, "", p + 1, k - 1);
      }
    } else if words[p][1] == '-' {
      AfterMovesOnlyNonOptions(c, words, p, LongStep(c, words, words[p][2..], p + 1), 0, k);
    } else {
      AfterMovesOnlyNonOptions(c, words, p, ShortStep(c, words, words[p][1..], p), |words[p]|, k);
    }
  }

  lemma {:induction false} AfterMovesOnlyNonOptions(c: Config, words: seq<string>, p: nat, s: Step, room: nat, k: nat)
    requires p <= s.next <= |words|
    requires s.Step? && s.next == p ==> p < |words| && s.place != "" && |s.place| < room
    requires s.Step? && s.next > p ==> s.place == ""
    requires k < |After(c, words, p, s, room).isOption| && !After(c, words, p, s, room).isOption[k]
    ensures c.Mode() == Permute && IsNonOption(words[p + k])
    decreases |words| - p, room, 0
  {
    ScanMovesOnlyNonOptions(c, words, s.place, s.next, k - (s.next - p));
  }

  /** The option letters let -W introduce a long option. */
  predicate LongByW(c: Config) {
    var i := FirstIndex(c.Letters(), 'W');
    i >= 0 && CharAt(c.Letters(), i + 1) == ';'
  }

  predicate IsSuffix(place: string, word: string) {
    |place| <= |word| && word[|word| - |place|..] == place
  }

  /** Word q - 1 is empty, and the argument of a -W that ends the word before it. */
  predicate EmptyArgumentOfW(c: Config, words: seq<string>, q: nat) {
    && LongByW(c) && 2 <= q <= |words| && words[q - 1] == ""
    && words[q - 2] != "" && words[q - 2][|words[q - 2]| - 1] == 'W'
  }

  /** A short option ends the parse only as such a -W, and otherwise leaves a suffix of its word. */
  lemma ShortStepEnds(c: Config, words: seq<string>, place: string, p: nat)
    requires p < |words| && place != "" && IsSuffix(place, words[p])
    ensures
      var s := ShortStep(c, words, place, p);
      if s.Delimiter? then s.next == p + 2 && EmptyArgumentOfW(c, words, p + 2)
      else s.next == p ==> IsSuffix(s.place, words[p])
  {
    assert words[p][|words[p]| - 1] == place[|place| - 1];
    assert words[p][|words[p]| - |place| + 1..] == place[1..];
  }

  /**
    In PERMUTE mode only a delimiter stops a parse early: "--", or the empty
    argument of a -W, if the option letters have one that introduces long options.
   */
  lemma {:induction false} ScanStopsAtDelimiter(c: Config, words: seq<string>, place: string, p: nat)
    requires p <= |words| && c.Mode() == Permute
    requires place != "" ==> p < |words| && IsSuffix(place, words[p])
    ensures
      var end := p + |Scan(c, words, place, p).isOption|;
      end < |words| ==> p < end && (words[end - 1] == "--" || EmptyArgumentOfW(c, words, end))
    decreases |words| - p, if place == "" && p < |words| then |words[p]| else |place|
  {
    hide NextStep, EmptyArgumentOfW, IsSuffix, Scan;
    if p == |words| {
      ScanAtNonOption(c, words, p);
    } else if place == "" && IsNonOption(words[p]) {
      ScanAtNonOption(c, words, p);
      ScanStopsAtDelimiter(c, words, "", p + 1);
    } else {
      ScanIsResume(c, words, place, p);
      NextStepEnds(c, words, place, p);
      var s := NextStep(c, words, place, p);
      if s.Step? {
        ScanStopsAtDelimiter(c, words, s.place, s.next);
      }
    }
  }

  /** A step ends the parse only as a delimiter of one of these kinds. */
  lemma NextStepEnds(c: Config, words: seq<string>, place: string, p: nat)
    requires p < |words| && (if place == "" then !IsNonOption(words[p]) else IsSuffix(place, words[p]))
    ensures
      var s := NextStep(c, words, place, p);
      if s.Delimiter? then p < s.next && (words[s.next - 1] == "--" || EmptyArgumentOfW(c, words, s.next))
      else
        && (s.place != "" ==> s.next == p && IsSuffix(s.place, words[p]))
        && (s.next == p ==> |s.place| < if place == "" then |words[p]| else |place|)
  {
    hide ShortStep, EmptyArgumentOfW, IsSuffix;
    if place == "" && words[p][1] == '-' {
      assert words[p] == words[p][..2] + words[p][2..];
    } else {
      WordIsSuffix(words[p]);
      ShortStepEnds(c, words, if place == "" then words[p][1..] else place, p);
    }
  }

  lemma WordIsSuffix(word: string)
    ensures word != "" ==> IsSuffix(word[1..], word)
  {
  }

  const SHORT_OPTIONS := "?nmdvfLxb:c:h:s:H:r:R:g:i:k:z:0:1:D:"

  /** The command line of this program has no such letter. */
  lemma NoLongByW(c: Config)
    requires c.options == SHORT_OPTIONS
    ensures !LongByW(c)
  {
    assert c.Letters() == SHORT_OPTIONS;
    assert 'W' !in SHORT_OPTIONS;
  }

  /** Without such a letter only "--" does. */
  lemma OnlyDashesStop(c: Config, words: seq<string>)
    requires words != [] && c.Mode() == Permute && !LongByW(c)
    ensures
      var end := 1 + |Scan(c, words, "", 1).isOption|;
      end < |words| ==> 1 < end && words[end - 1] == "--"
  {
    ScanStopsAtDelimiter(c, words, "", 1);
  }

  /** With it, an empty argument does: the last word is not looked at. */
  lemma EmptyArgumentStops(c: Config, words: seq<string>)
    requires c == Config("W;", [], false) && words == ["p", "-W", "", "x"]
    ensures c.Mode() == Permute && Scan(c, words, "", 1) == Parse([true, true], [END])
  {
    assert words[1][1..] == "W" && "W"[1..] == "" && c.Letters() == "W;" && FirstIndex("W;", 'W') == 0;
    assert ShortStep(c, words, "W", 1) == Delimiter(3);
  }

  lemma LongStepCode(c: Config, words: seq<string>, body: string, q: nat)
    requires q <= |words| && forall o :: o in c.longOptions ==> o.flag || o.val != -1
    ensures LongStep(c, words, body, q).Step? ==> LongStep(c, words, body, q).call.code != -1
  {
    if body != "" {
      var eq := FirstIndex(body, '=');
      var m := LongMatch(c.longOptions, if eq == -1 then body else body[..eq], 0, -1);
      assert m >= 0 ==> c.longOptions[m] in c.longOptions;
    }
  }

  lemma ShortStepCode(c: Config, words: seq<string>, place: string, p: nat)
    requires p < |words| && place != "" && forall o :: o in c.longOptions ==> o.flag || o.val != -1
    ensures ShortStep(c, words, place, p).Step? ==> ShortStep(c, words, place, p).call.code != -1
  {
    LongStepCode(c, words, place[1..], p + 1);
    if p + 1 < |words| {
      LongStepCode(c, words, words[p + 1], p + 2);
    }
  }

  /** -1 is returned at the end of the parse and nowhere else, unless a long option asks for it. */
  lemma {:induction false} OnlyEndIsMinusOne(c: Config, words: seq<string>, place: string, p: nat)
    requires p <= |words| && (place != "" ==> p < |words|)
    requires forall o :: o in c.longOptions ==> o.flag || o.val != -1
    ensures Scan(c, words, place, p).calls[0].code == -1 ==> Scan(c, words, place, p).calls == [END]
    decreases |words| - p
  {
    if place != "" {
      ShortStepCode(c, words, place, p);
    } else if p == |words| {
    } else if IsNonOption(words[p]) {
      OnlyEndIsMinusOne(c, words, "", p + 1);
    } else if words[p][1] == '-' {
      LongStepCode(c, words, words[p][2..], p + 1);
    } else {
      ShortStepCode(c, words, words[p][1..], p);
    }
  }

  // ----- the vector in the middle of a parse

  /** The block of skipped non-options is where the two bounds say; -1 means no block, or no option behind it yet. */
  ghost predicate Fits(words: seq<string>, isOption: seq<bool>, nonoptStart: int, nonoptEnd: int) {
    && |isOption| < |words|
    && var options, others := Pick(words, isOption, true), Pick(words, isOption, false);
    if nonoptStart == -1 then nonoptEnd == -1 && others == []
    else if nonoptEnd == -1 then others != [] && nonoptStart == 1 + |options|
    else others != [] && 1 <= nonoptStart <= 1 + |options| && nonoptEnd == nonoptStart + |others|
  }

  /** The vector then: options, the block, the options found since, and the words the scan has not reached. */
  ghost function Arranged(words: seq<string>, isOption: seq<bool>, nonoptStart: int, nonoptEnd: int): seq<string>
    requires Fits(words, isOption, nonoptStart, nonoptEnd)
  {
    var options, others := Pick(words, isOption, true), Pick(words, isOption, false);
    var k := if nonoptEnd == -1 then |options| else nonoptStart - 1;
    words[..1] + options[..k] + others + options[k..] + words[1 + |isOption|..]
  }

  /** The words ahead of the scan have not moved. */
  lemma ArrangedAhead(words: seq<string>, isOption: seq<bool>, nonoptStart: int, nonoptEnd: int, p: int)
    requires Fits(words, isOption, nonoptStart, nonoptEnd) && |isOption| < p < |words|
    ensures |Arranged(words, isOption, nonoptStart, nonoptEnd)| == |words|
    ensures Arranged(words, isOption, nonoptStart, nonoptEnd)[p] == words[p]
  {
    PickLengths(words, isOption);
  }

  lemma BlockEndBound(words: seq<string>, isOption: seq<bool>, s: int, e: int)
    requires Fits(words, isOption, s, e)
    ensures e <= 1 + |isOption| && (s == -1 ==> e == -1)
  {
    PickLengths(words, isOption);
  }

  lemma ExchangeParts(a: seq<string>, b: seq<string>, c: seq<string>, d: seq<string>, e: seq<string>)
    ensures
      var start := |a| + |b|;
      Exchanged(a + b + c + d + e, start, start + |c|, start + |c| + |d|) == a + (b + d) + c + e
  {
    var start, now := |a| + |b|, a + b + c + d + e;
    assert now[..start] == a + b && now[start..start + |c|] == c;
    assert now[start + |c|..start + |c| + |d|] == d && now[start + |c| + |d|..] == e;
  }

  /** A block with options behind it can be exchanged with them. */
  lemma ExchangeBlock(words: seq<string>, isOption: seq<bool>, s: int, e: int)
    requires Fits(words, isOption, s, e) && e != -1
    ensures 0 <= s < e <= 1 + |isOption| < |Arranged(words, isOption, s, e)| + 1
    ensures Fits(words, isOption, 1 + |isOption| - (e - s), -1)
    ensures Exchanged(Arranged(words, isOption, s, e), s, e, 1 + |isOption|)
         == Arranged(words, isOption, 1 + |isOption| - (e - s), -1)
  {
    hide Pick, Exchanged;
    PickLengths(words, isOption);
    var options, others := Pick(words, isOption, true), Pick(words, isOption, false);
    ExchangeParts(words[..1], options[..s - 1], others, options[s - 1..], words[1 + |isOption|..]);
    assert options[..s - 1] + options[s - 1..] == options;
    Appended(words[..1] + options, others, options, words[1 + |isOption|..]);
  }

  lemma Appended(a: seq<string>, b: seq<string>, c: seq<string>, d: seq<string>)
    ensures a + b + c[|c|..] + d == a + b + d
  {
    assert c[|c|..] == [];
  }

  /** Skipping a non-option lengthens the block, which must end where the scan stands. */
  lemma SkipWord(words: seq<string>, isOption: seq<bool>, s: int)
    requires Fits(words, isOption, s, -1) && 1 + |isOption| < |words|
    ensures
      var s' := if s == -1 then 1 + |isOption| else s;
      && Fits(words, isOption + [false], s', -1)
      && Arranged(words, isOption + [false], s', -1) == Arranged(words, isOption, s, -1)
  {
    PickLengths(words, isOption);
    assert seq(1, _ => false) == [false];
    PickAppend(words, isOption, 1, true, false);
    PickAppend(words, isOption, 1, false, false);
    assert words[1 + |isOption|..] == [words[1 + |isOption|]] + words[2 + |isOption|..];
  }

  /** Consuming the words of an option: a block of non-options ahead of them must have been closed. */
  lemma ConsumeWords(words: seq<string>, isOption: seq<bool>, s: int, e: int, k: nat)
    requires Fits(words, isOption, s, e) && 1 + |isOption| + k <= |words|
    requires s != -1 ==> e != -1
    ensures Fits(words, isOption + Trues(k), s, e)
    ensures Arranged(words, isOption + Trues(k), s, e) == Arranged(words, isOption, s, e)
  {
    hide Pick, Trues;
    var cur := 1 + |isOption|;
    var options, others := Pick(words, isOption, true), Pick(words, isOption, false);
    var consumed, rest := words[cur..cur + k], words[cur + k..];
    PickTrues(words, isOption, k);
    assert words[cur..] == consumed + rest && 1 + |isOption + Trues(k)| == cur + k;
    if e == -1 {
      NoOthers(words[..1], options, consumed, rest);
    } else {
      ConsumedBehind(words[..1], options, others, consumed, rest, s - 1);
    }
  }

  /** What is consumed behind a closed block joins the options behind it. */
  lemma ConsumedBehind(a: seq<string>, options: seq<string>, others: seq<string>, consumed: seq<string>,
      rest: seq<string>, i: nat)
    requires i <= |options|
    ensures a + (options + consumed)[..i] + others + (options + consumed)[i..] + rest
         == a + options[..i] + others + options[i..] + (consumed + rest)
  {
    InsertBefore(options, consumed, i);
    Associated(a + options[..i] + others, options[i..], consumed, rest);
  }

  lemma Associated(a: seq<string>, b: seq<string>, c: seq<string>, d: seq<string>)
    ensures a + (b + c) + d == a + b + (c + d)
  {
  }

  lemma NoOthers(a: seq<string>, b: seq<string>, c: seq<string>, d: seq<string>)
    ensures a + (b + c)[..|b + c|] + [] + (b + c)[|b + c|..] + d == a + b[..|b|] + [] + b[|b|..] + (c + d)
  {
    assert (b + c)[..|b + c|] == b + c && (b + c)[|b + c|..] == [] && b[..|b|] == b && b[|b|..] == [];
  }

  lemma InsertBefore<T>(a: seq<T>, b: seq<T>, i: nat)
    requires i <= |a|
    ensures (a + b)[..i] == a[..i] && (a + b)[i..] == a[i..] + b
  {
  }

  lemma PickTrues(words: seq<string>, isOption: seq<bool>, k: nat)
    requires |isOption| + k < |words|
    ensures Pick(words, isOption + Trues(k), true)
         == Pick(words, isOption, true) + words[1 + |isOption|..1 + |isOption| + k]
    ensures Pick(words, isOption + Trues(k), false) == Pick(words, isOption, false)
  {
    assert Trues(k) == seq(k, _ => true);
    PickAppend(words, isOption, k, true, true);
    PickAppend(words, isOption, k, false, true);
  }

  /** Closing the block where the scan stands changes nothing. */
  lemma CloseBlock(words: seq<string>, isOption: seq<bool>, s: int)
    requires Fits(words, isOption, s, -1) && s != -1
    ensures Fits(words, isOption, s, 1 + |isOption|)
    ensures Arranged(words, isOption, s, 1 + |isOption|) == Arranged(words, isOption, s, -1)
  {
    PickLengths(words, isOption);
  }

  /** With the block last, or no block at all, the scanned part is partitioned. */
  lemma BlockLast(words: seq<string>, isOption: seq<bool>, s: int)
    requires Fits(words, isOption, s, -1)
    ensures Arranged(words, isOption, s, -1) == Partitioned(words, isOption)
    ensures 1 + |Pick(words, isOption, true)| == if s == -1 then 1 + |isOption| else s
  {
    PickLengths(words, isOption);
  }

  /** The rest of a parse whose next step, in word p, is s. */
  ghost function Resume(c: Config, words: seq<string>, p: nat, s: Step): Parse
    requires CanTake(words, p, s)
  {
    if s.Delimiter? then Parse(Trues(s.next - p), [END])
    else
      var r := Scan(c, words, s.place, s.next);
      Parse(Trues(s.next - p) + r.isOption, [s.call] + r.calls)
  }

  /** Scan unfolded: with letters left, or at a word that is an option, the next step decides. */
  lemma ScanIsResume(c: Config, words: seq<string>, place: string, p: nat)
    requires p < |words| && (place == "" ==> !IsNonOption(words[p]))
    ensures
      var s := NextStep(c, words, place, p);
      CanTake(words, p, s) && Scan(c, words, place, p) == Resume(c, words, p, s)
  {
  }

  /** Scan unfolded at a non-option, and at the end of the words. */
  lemma ScanAtNonOption(c: Config, words: seq<string>, p: nat)
    requires p <= |words| && (p < |words| ==> IsNonOption(words[p]))
    ensures
      var r := Scan(c, words, "", p);
      if p == |words| || c.Mode() == StopAtFirst then r == Parse([], [END])
      else if c.Mode() == Permute then
        && r.isOption == [false] + Scan(c, words, "", p + 1).isOption
        && r.calls == Scan(c, words, "", p + 1).calls
      else
        var s := Step(Call(1, Some(words[p]), -1), "", p + 1);
        CanTake(words, p, s) && r == Resume(c, words, p, s)
  {
    assert Trues(1) == [true];
  }

  lemma DelimiterStep(c: Config, words: seq<string>, q: nat)
    requires q <= |words|
    ensures LongStep(c, words, "", q) == Delimiter(q)
  {
  }

  // ----- the scanner

  class Getopt {
    const argv: array<string>
    const config: Config

    var optind: int
    var optarg: Option<string>
    var place: string
    var nonoptStart: int
    var nonoptEnd: int

    /** The vector as the caller passed it, and what the scan has decided about its words so far. */
    ghost const words: seq<string>
    ghost var isOption: seq<bool>

    constructor (argv: array<string>, config: Config)
      requires argv.Length > 0
      ensures this.argv == argv && this.config == config && words == argv[..]
      ensures Valid() && place == "" && isOption == []
    {
      this.argv, this.config, words := argv, config, argv[..];
      optind, optarg, place, nonoptStart, nonoptEnd := 0, None, "", -1, -1;
      isOption := [];
    }

    /** optind, with its initial 0 read as 1. */
    function Current(): int
      reads this
    {
      if optind == 0 then 1 else optind
    }

    /** The vector is arranged as the scan so far demands. */
    ghost predicate InOrderSoFar()
      reads `nonoptStart, `nonoptEnd, `isOption, argv
    {
      && words != [] && argv.Length == |words|
      && Fits(words, isOption, nonoptStart, nonoptEnd)
      && argv[..] == Arranged(words, isOption, nonoptStart, nonoptEnd)
      && (nonoptStart != -1 ==> config.Mode() == Permute)
    }

    /** Between two calls. */
    ghost predicate Valid()
      reads this, argv
    {
      && InOrderSoFar()
      && Current() == 1 + |isOption|
      && (place != "" ==> Current() < |words| && Closed())
      && (nonoptEnd != -1 && place == "" ==> nonoptEnd < Current())
    }

    /** What the next call comes to. */
    ghost function Ahead(): Ahead
      requires Valid()
      reads this, argv
    {
      Next(config, words, place, isOption)
    }

    /** The whole parse, what is decided included, with a caller that takes words for these codes. */
    ghost function Rest(codes: set<int>): Parse
      requires Valid()
      reads this, argv
    {
      ParseTaking(config, codes, words, place, isOption)
    }

    /** The parse is over: the vector is partitioned and optind stands at its first non-option. */
    ghost predicate Finished(isOption: seq<bool>)
      reads this, argv
    {
      && |isOption| < |words|
      && argv[..] == Partitioned(words, isOption)
      && optind == 1 + |Pick(words, isOption, true)|
    }

    /** The block of non-options has been closed, if there is one. */
    predicate Closed()
      reads `nonoptStart, `nonoptEnd
    {
      nonoptStart != -1 ==> nonoptEnd != -1
    }

    /** Step s is what the call comes to, and is yet to be entered in isOption. */
    ghost predicate Taking(s: Step, ahead: Ahead)
      reads `nonoptStart, `nonoptEnd, `isOption, argv
    {
      InOrderSoFar() && Closed() && CanTake(words, 1 + |isOption|, s) && ahead == Takes(isOption, s)
    }

    lemma AheadUntouched()
      requires InOrderSoFar()
      ensures forall p :: |isOption| < p < |words| ==> argv[p] == words[p]
    {
      forall p | |isOption| < p < |words|
        ensures argv[p] == words[p]
      {
        ArrangedAhead(words, isOption, nonoptStart, nonoptEnd, p);
      }
    }

    /** The step a return from getopt_internal stands for; -2 leaves a long option, or the delimiter, in place. */
    ghost function StepReturned(ret: int): Step
      requires 0 <= optind && (ret == -2 ==> optind < |words|)
      reads this
    {
      if ret == -2 then LongStep(config, words, place, optind + 1) else Step(Call(ret, optarg, -1), place, optind)
    }

    /** Exchange the block with the options behind it, if there are any; everything scanned is then partitioned. */
    method Finish()
      requires InOrderSoFar() && optind == 1 + |isOption|
      requires nonoptEnd != -1 ==> nonoptEnd < optind
      modifies this, argv
      ensures Finished(old(isOption)) && optarg == old(optarg)
    {
      if nonoptEnd != -1 {
        ExchangeBlock(words, isOption, nonoptStart, nonoptEnd);
        BlockLast(words, isOption, optind - (nonoptEnd - nonoptStart));
        PermuteArgs(nonoptStart, nonoptEnd, optind, argv);
        optind := optind - (nonoptEnd - nonoptStart);
      } else {
        BlockLast(words, isOption, nonoptStart);
        if nonoptStart != -1 {
          optind := nonoptStart;
        }
      }
      nonoptStart, nonoptEnd := -1, -1;
    }

    /** A non-option in PERMUTE mode: bring the block up to it and take it in. */
    method SkipNonOption()
      requires Valid() && place == "" && 0 < optind < |words| && config.Mode() == Permute
      modifies this, argv
      ensures Valid() && place == "" && optarg == old(optarg)
      ensures optind == old(optind) + 1 && isOption == old(isOption) + [false]
    {
      hide Fits, Arranged, Exchanged, Pick;
      if nonoptStart == -1 {
        BlockEndBound(words, isOption, nonoptStart, nonoptEnd);
        SkipWord(words, isOption, -1);
        nonoptStart := optind;
      } else if nonoptEnd != -1 {
        ExchangeBlock(words, isOption, nonoptStart, nonoptEnd);
        SkipWord(words, isOption, optind - (nonoptEnd - nonoptStart));
        PermuteArgs(nonoptStart, nonoptEnd, optind, argv);
        nonoptStart := optind - (nonoptEnd - nonoptStart);
        nonoptEnd := -1;
      } else {
        SkipWord(words, isOption, nonoptStart);
      }
      isOption := isOption + [false];
      optind := optind + 1;
    }

    /** The loop at the head of getopt_internal.  Returns 0 when an option has been found in word optind. */
    method FindOption() returns (ret: int)
      requires Valid() && place == "" && optind != 0 && optarg == None
      modifies this, argv
      ensures ret in {-1, 0, 1}
      ensures ret == -1 ==> old(Ahead()).Ends? && optarg == None && Finished(old(Ahead()).decided)
      ensures ret == 1 ==> optind == 2 + |isOption| && Taking(StepReturned(1), old(Ahead()))
      ensures ret == 0 ==>
                && Valid() && place == "" && 0 < optind < |words| && !IsNonOption(words[optind]) && optarg == None
                && old(Ahead()) == Ahead()
    {
      hide Fits, Arranged, Partitioned;
      ghost var ahead := Ahead();
      while true
        invariant Valid() && place == "" && optarg == None && optind != 0
        invariant Ahead() == ahead
        decreases |words| - optind
      {
        if optind >= argv.Length {
          Finish();
          return -1;
        }
        ArrangedAhead(words, isOption, nonoptStart, nonoptEnd, optind);
        if !IsNonOption(argv[optind]) {
          return 0;
        }
        if config.Mode() == InOrder {
          optarg := Some(argv[optind]);
          optind := optind + 1;
          return 1;
        }
        if config.Mode() != Permute {
          BlockEndBound(words, isOption, nonoptStart, nonoptEnd);
          BlockLast(words, isOption, nonoptStart);
          return -1;
        }
        SkipNonOption();
      }
    }

    /** The rest of getopt_internal: take one option letter off place. */
    method ScanLetter() returns (ret: int)
      requires place != "" && 0 < optind < |words| == argv.Length && optarg == None
      requires forall p :: optind <= p < |words| ==> argv[p] == words[p]
      modifies this`place, this`optind, this`optarg
      ensures ret != -1 && old(optind) <= optind
      ensures ret == -2 ==> optind < |words| && optarg == None
      ensures ShortStep(config, words, old(place), old(optind)) == StepReturned(ret)
    {
      var letters := config.Letters();
      var optchar := place[0];
      place := place[1..];
      var oli := if optchar == ':' then -1 else FirstIndex(letters, optchar);
      if oli == -1 {
        if place == "" {
          optind := optind + 1;
        }
        return config.BadCh();
      }
      if optchar == 'W' && CharAt(letters, oli + 1) == ';' {
        if place != "" {
          return -2;
        }
        optind := optind + 1;
        if optind >= argv.Length {
          place := "";
          return config.BadArg();
        }
        place := argv[optind];
        return -2;
      }
      if CharAt(letters, oli + 1) != ':' {
        if place == "" {
          optind := optind + 1;
        }
      } else {
        if place != "" {
          optarg := Some(place);
        } else if CharAt(letters, oli + 2) != ':' {
          optind := optind + 1;
          if optind >= argv.Length {
            place := "";
            return config.BadArg();
          }
          optarg := Some(argv[optind]);
        }
        place := "";
        optind := optind + 1;
      }
      return optchar as int;
    }

    /** Start on the option in word optind, closing the block of non-options ahead of it.  Returns -2 at a "--". */
    method EnterWord() returns (ret: int)
      requires InOrderSoFar() && |isOption| + 1 == optind < |words| && !IsNonOption(words[optind])
      modifies this`place, this`nonoptEnd
      ensures InOrderSoFar() && Closed()
      ensures words[optind][1] == '-' ==> ret == -2 && place == words[optind][2..]
      ensures words[optind][1] != '-' ==> ret == 0 && place == words[optind][1..]
    {
      hide Fits, Arranged;
      AheadUntouched();
      place := argv[optind];
      if nonoptStart != -1 && nonoptEnd == -1 {
        CloseBlock(words, isOption, nonoptStart);
        nonoptEnd := optind;
      }
      if place[1] == '-' {
        place := place[2..];
        return -2;
      }
      place := place[1..];
      return 0;
    }

    /** Everything up to the letter: returns 0 when option letters are in place. */
    method ReachLetter() returns (ret: int)
      requires Valid() && optind != 0 && optarg == None
      modifies this, argv
      ensures ret == -1 ==> old(Ahead()).Ends? && optarg == None && Finished(old(Ahead()).decided)
      ensures ret != -1 ==> InOrderSoFar() && 0 < optind
      ensures ret == -2 ==> 1 + |isOption| <= optind < |words| && optarg == None
      ensures ret == 0 ==> optarg == None && place != "" && optind == 1 + |isOption| < |words|
      ensures ret != -1 ==>
                Taking(if ret == 0 then ShortStep(config, words, place, optind) else StepReturned(ret), old(Ahead()))
    {
      hide ShortStep, LongStep, Fits, Arranged, Partitioned;
      ret := 0;
      if place == "" {
        ret := FindOption();
        if ret != 0 {
          return;
        }
        ret := EnterWord();
      }
    }

    method GetoptInternal() returns (ret: int)
      requires Valid()
      modifies this, argv
      ensures ret == -1 ==> old(Ahead()).Ends? && optarg == None && Finished(old(Ahead()).decided)
      ensures ret != -1 ==>
                && InOrderSoFar() && 0 < optind && (ret == -2 ==> 1 + |isOption| <= optind < |words| && optarg == None)
                && Taking(StepReturned(ret), old(Ahead()))
    {
      hide ShortStep, LongStep, Fits, Arranged, CanTake, Partitioned, Taking, Finished, Next;
      optarg := None;
      if optind == 0 {
        optind := 1;
      }
      ret := ReachLetter();
      if ret == 0 {
        AheadUntouched();
        ret := ScanLetter();
      }
    }

    /** Enters the words up to optind, which belong to the option just scanned, in isOption. */
    ghost method Consume()
      requires InOrderSoFar() && 1 + |isOption| <= optind <= |words| && Closed()
      modifies this`isOption
      ensures isOption == old(isOption) + Trues(optind - 1 - |old(isOption)|)
      ensures InOrderSoFar() && (nonoptStart != -1 ==> nonoptEnd <= 1 + |old(isOption)|)
    {
      hide Fits, Arranged;
      BlockEndBound(words, isOption, nonoptStart, nonoptEnd);
      ConsumeWords(words, isOption, nonoptStart, nonoptEnd, optind - 1 - |isOption|);
      isOption := isOption + Trues(optind - 1 - |isOption|);
    }

    /** The step being taken is complete; the scanner is between calls again. */
    ghost method CompleteStep(call: Call, ahead: Ahead)
      requires 0 < optind && Taking(Step(call, place, optind), ahead)
      modifies this`isOption
      ensures Valid() && Closed() && isOption == ahead.decided + Trues(optind - 1 - |ahead.decided|)
    {
      hide Fits, Arranged;
      Consume();
      BlockEndBound(words, isOption, nonoptStart, nonoptEnd);
    }

    /** The delimiter: it joins the options, and the parse is over. */
    method CompleteDelimiter(ghost ahead: Ahead)
      requires 0 < optind && Taking(Delimiter(optind), ahead) && 1 + |isOption| < optind
      modifies this, argv
      ensures Finished(ahead.decided + Trues(old(optind) - 1 - |ahead.decided|)) && optarg == old(optarg)
    {
      hide Fits, Arranged, Partitioned;
      Consume();
      BlockEndBound(words, isOption, nonoptStart, nonoptEnd);
      Finish();
    }

    /** The part of getopt_long that looks up the long option in place; optind is already past its word. */
    method ScanLong() returns (retval: int, idx: int)
      requires place != "" && 0 < optind <= |words| == argv.Length && optarg == None
      requires forall p :: optind <= p < |words| ==> argv[p] == words[p]
      modifies this`place, this`optind, this`optarg
      ensures 0 <= optind
      ensures LongStep(config, words, old(place), old(optind)) == Step(Call(retval, optarg, idx), place, optind)
    {
      var current := place;
      place := "";
      var hasEqual := FirstIndex(current, '=');
      var key := if hasEqual == -1 then current else current[..hasEqual];
      var found := FindLong(key);
      if found < 0 {
        return config.BadCh(), -1;
      }
      var option := config.longOptions[found];
      if option.hasArg.NoArgument? && hasEqual != -1 {
        return config.BadArg(), -1;
      }
      if option.hasArg.RequiredArgument? || option.hasArg.OptionalArgument? {
        if hasEqual != -1 && hasEqual + 1 < |current| {
          optarg := Some(current[hasEqual + 1..]);
        } else if option.hasArg.RequiredArgument? {
          optarg := if optind < argv.Length then Some(argv[optind]) else None;
          optind := optind + 1;
        }
      }
      if option.hasArg.RequiredArgument? && optarg == None {
        optind := optind - 1;
        return config.BadArg(), -1;
      }
      return if option.flag then 0 else option.val, found;
    }

    /** What a call that came to ahead has done: the scanner is between calls again, or the parse is over. */
    ghost predicate Done(ahead: Ahead, call: Call)
      reads this, argv
    {
      if ahead.Ends? then call == END && Finished(ahead.decided)
      else
        && 1 + |ahead.decided| <= ahead.step.next
        && var mask := ahead.decided + Trues(ahead.step.next - 1 - |ahead.decided|);
        if ahead.step.Delimiter? then call == END && Finished(mask)
        else
          && call == ahead.step.call && place == ahead.step.place && 0 < optind == ahead.step.next
          && Valid() && Closed() && isOption == mask
    }

    method GetoptLong() returns (retval: int, idx: int)
      requires Valid()
      modifies this, argv
      ensures Done(old(Ahead()), Call(retval, optarg, idx))
    {
      hide ShortStep, LongStep, Fits, Arranged, CanTake, Partitioned, Finished, Next;
      idx := -1;
      retval := GetoptInternal();
      if retval == -1 {
        return;
      }
      ghost var ahead := old(Ahead());
      if retval == -2 {
        optind := optind + 1;
        if place == "" {
          DelimiterStep(config, words, optind);
          CompleteDelimiter(ahead);
          return -1, -1;
        }
        AheadUntouched();
        retval, idx := ScanLong();
      }
      CompleteStep(Call(retval, optarg, idx), ahead);
    }

    /** The caller takes the next word for an argument. */
    method TakeWord() returns (word: string)
      requires Valid() && Closed() && place == "" && 0 < optind < |words|
      modifies this`optind, this`isOption
      ensures Valid() && Closed() && optind == old(optind) + 1 && isOption == old(isOption) + [true]
      ensures word == words[old(optind)]
    {
      hide Fits, Arranged;
      AheadUntouched();
      word := argv[optind];
      optind := optind + 1;
      Consume();
      assert Trues(1) == [true];
      BlockEndBound(words, isOption, nonoptStart, nonoptEnd);
    }

    /** The table search of getopt_long; -2 when the abbreviation is ambiguous. */
    method FindLong(key: string) returns (found: int)
      ensures found == LongMatch(config.longOptions, key, 0, -1)
    {
      found := -1;
      var i := 0;
      while i < |config.longOptions|
        invariant 0 <= i <= |config.longOptions| && -1 <= found < i
        invariant LongMatch(config.longOptions, key, 0, -1) == LongMatch(config.longOptions, key, i, found)
      {
        if key <= config.longOptions[i].name {
          if |config.longOptions[i].name| == |key| {
            return i;
          }
          if found == -1 {
            found := i;
          } else {
            return -2;
          }
        }
        i := i + 1;
      }
    }
  }

  // ----- whole parses

  /** No long option asks for the result that means the end. */
  predicate EndIsOnlyEnd(c: Config) {
    forall o :: o in c.longOptions ==> o.flag || o.val != -1
  }

  /** The codes are told from letters, and from the results for errors and non-options. */
  predicate BeyondLetters(c: Config, codes: set<int>) {
    && (forall code :: code in codes ==> code >= 256)
    && forall letter :: letter in c.options ==> letter as int !in codes
  }

  lemma NextCode(c: Config, codes: set<int>, words: seq<string>, place: string, decided: seq<bool>)
    requires 1 + |decided| <= |words| && (place != "" ==> 1 + |decided| < |words|)
    requires EndIsOnlyEnd(c) && BeyondLetters(c, codes)
    ensures
      var r := Next(c, words, place, decided);
      r.Takes? && r.step.Step? ==> r.step.call.code != -1 && (r.step.call.code in codes ==> r.step.place == "")
    decreases |words| - |decided|
  {
    hide ShortStep, LongStep;
    var p := 1 + |decided|;
    if place != "" {
      ShortCode(c, codes, words, place, p);
    } else if p < |words| {
      if IsNonOption(words[p]) {
        if c.Mode() == Permute {
          NextCode(c, codes, words, "", decided + [false]);
        }
      } else if words[p][1] == '-' {
        LongStepCode(c, words, words[p][2..], p + 1);
        LongPlace(c, words, words[p][2..], p + 1);
      } else {
        ShortCode(c, codes, words, words[p][1..], p);
      }
    }
  }

  lemma LongPlace(c: Config, words: seq<string>, body: string, q: nat)
    requires q <= |words|
    ensures LongStep(c, words, body, q).Step? ==> LongStep(c, words, body, q).place == ""
  {
  }

  lemma ShortCode(c: Config, codes: set<int>, words: seq<string>, place: string, p: nat)
    requires p < |words| && place != "" && EndIsOnlyEnd(c) && BeyondLetters(c, codes)
    ensures
      var s := ShortStep(c, words, place, p);
      s.Step? ==> s.call.code != -1 && (s.call.code in codes ==> s.place == "")
  {
    hide LongStep;
    ShortStepCode(c, words, place, p);
    var letters := c.Letters();
    if place[0] in letters {
      assert place[0] in c.options;
    }
    LongPlace(c, words, place[1..], p + 1);
    if p + 1 < |words| {
      LongPlace(c, words, words[p + 1], p + 2);
    }
  }

  /** One call, and the word that the caller takes after it. */
  method NextOption(scanner: Getopt, codes: set<int>) returns (call: Call)
    requires scanner.Valid() && EndIsOnlyEnd(scanner.config) && BeyondLetters(scanner.config, codes)
    modifies scanner, scanner.argv
    ensures call.code == -1 ==>
              old(scanner.Rest(codes)).calls == [call] == [END] && scanner.Finished(old(scanner.Rest(codes)).isOption)
    ensures call.code != -1 ==>
              && scanner.Valid()
              && old(scanner.Rest(codes)).calls == [call] + scanner.Rest(codes).calls
              && old(scanner.Rest(codes)).isOption == scanner.Rest(codes).isOption
  {
    hide Next, Arranged, ParseTaking, Partitioned, BeyondLetters, EndIsOnlyEnd;
    NextCode(scanner.config, codes, scanner.words, scanner.place, scanner.isOption);
    ParseUnfolds(scanner.config, codes, scanner.words, scanner.place, scanner.isOption);
    var retval, idx := scanner.GetoptLong();
    call := Call(retval, scanner.optarg, idx);
    if retval == -1 {
      return;
    }
    scanner.AheadUntouched();
    if retval in codes && call.arg == None && scanner.optind < scanner.argv.Length
        && !(scanner.argv[scanner.optind] != "" && scanner.argv[scanner.optind][0] == '-') {
      var word := scanner.TakeWord();
      call := call.(arg := Some(word));
    }
  }

  /**
    The program's own parse: calling getopt_long until it returns -1, and taking
    the word after certain options for their argument if it has no dash.  The
    vector still ends up stably partitioned, the words taken being options.
   */
  method ParseCommandLine(argv: array<string>, config: Config, codes: set<int>)
    returns (calls: seq<Call>, optind: int)
    requires EndIsOnlyEnd(config) && BeyondLetters(config, codes)
    modifies argv
    ensures argv.Length == 0 ==> calls == [END] && optind == 1
    ensures argv.Length > 0 ==>
              && var r := ParseTaking(config, codes, old(argv[..]), "", []);
              && calls == r.calls
              && argv[..] == Partitioned(old(argv[..]), r.isOption)
              && optind == 1 + |Pick(old(argv[..]), r.isOption, true)|
  {
    hide Fits, Arranged, ParseTaking, Partitioned, BeyondLetters, EndIsOnlyEnd;
    if argv.Length == 0 {
      return [END], 1;
    }
    var scanner := new Getopt(argv, config);
    calls := [];
    ghost var plan := scanner.Rest(codes);
    assert [] + plan.calls == plan.calls;
    while true
      invariant fresh(scanner) && scanner.argv == argv && scanner.config == config && scanner.words == old(argv[..])
      invariant scanner.Valid()
      invariant calls + scanner.Rest(codes).calls == plan.calls && scanner.Rest(codes).isOption == plan.isOption
      decreases |scanner.Rest(codes).calls|
    {
      var call := NextOption(scanner, codes);
      calls := calls + [call];
      if call.code == -1 {
        break;
      }
    }
    optind := scanner.optind;
  }

  lemma {:induction false} NextPassesNonOptions(c: Config, words: seq<string>, place: string, decided: seq<bool>,
      k: nat)
    requires 1 + |decided| <= |words| && (place != "" ==> 1 + |decided| < |words|)
    requires |decided| <= k < |Next(c, words, place, decided).decided|
    ensures !Next(c, words, place, decided).decided[k] && c.Mode() == Permute && IsNonOption(words[1 + k])
    decreases |words| - |decided|
  {
    if k > |decided| {
      NextPassesNonOptions(c, words, "", decided + [false], k);
    } else {
      var more := decided + [false];
      assert more[k] == Next(c, words, "", more).decided[k];
    }
  }

  /** With such a caller, too, only non-options are ever moved, and only in PERMUTE mode. */
  lemma {:induction false} TakingMovesOnlyNonOptions(c: Config, codes: set<int>, words: seq<string>, place: string,
      decided: seq<bool>, k: nat)
    requires 1 + |decided| <= |words| && (place != "" ==> 1 + |decided| < |words|)
    ensures decided <= ParseTaking(c, codes, words, place, decided).isOption
    ensures
      var mask := ParseTaking(c, codes, words, place, decided).isOption;
      |decided| <= k < |mask| && !mask[k] ==> c.Mode() == Permute && IsNonOption(words[1 + k])
    decreases |words| - |decided|, if place == "" && 1 + |decided| < |words| then |words[1 + |decided|]| else |place|
  {
    hide Next, ParseTaking;
    ParseUnfolds(c, codes, words, place, decided);
    var ahead := Next(c, words, place, decided);
    if |decided| <= k < |ahead.decided| {
      NextPassesNonOptions(c, words, place, decided, k);
    }
    if ahead.Takes? && ahead.step.Step? {
      var (call, after, mask) := Taken(codes, words, ahead.decided, ahead.step);
      TakingMovesOnlyNonOptions(c, codes, words, after, mask, k);
    }
  }

  const OPT_DEBUG := 277
  const OPT_DETECT_DEVFS := 286

  /** This program takes a word for these two, which are beyond its letters. */
  lemma CodesBeyondLetters(c: Config)
    requires c.options == SHORT_OPTIONS
    ensures BeyondLetters(c, {OPT_DEBUG, OPT_DETECT_DEVFS})
  {
    forall letter | letter in c.options
      ensures letter as int !in {OPT_DEBUG, OPT_DETECT_DEVFS}
    {
      if letter as int >= 256 {
        NoLetter(letter);
      }
    }
  }

  lemma NoLetter(letter: char)
    requires letter as int >= 256
    ensures letter !in SHORT_OPTIONS
  {
  }

  /** The level behind "--debug" is moved with it; the straight scan would have left it among the non-options. */
  lemma DebugLevelTaken(c: Config, words: seq<string>)
    requires c == Config("", [LongOption("debug", OptionalArgument, false, OPT_DEBUG)], false)
    requires words == ["p", "x", "--debug", "3", "y"]
    ensures ParseTaking(c, {OPT_DEBUG}, words, "", [])
         == Parse([false, true, true, false], [Call(OPT_DEBUG, Some("3"), 0), END])
    ensures ParseTaking(c, {}, words, "", []) == Parse([false, true, false, false], [Call(OPT_DEBUG, None, 0), END])
  {
    hide ParseTaking, Next;
    DebugNext(c, words);
    ParseUnfolds(c, {OPT_DEBUG}, words, "", []);
    ParseUnfolds(c, {OPT_DEBUG}, words, "", [false, true, true]);
    ParseUnfolds(c, {}, words, "", []);
    ParseUnfolds(c, {}, words, "", [false, true]);
    assert [false] + Trues(1) == [false, true] && [false, true] + [true] == [false, true, true];
  }

  lemma DebugNext(c: Config, words: seq<string>)
    requires c == Config("", [LongOption("debug", OptionalArgument, false, OPT_DEBUG)], false)
    requires words == ["p", "x", "--debug", "3", "y"]
    ensures Next(c, words, "", []) == Takes([false], Step(Call(OPT_DEBUG, None, 0), "", 3))
    ensures Next(c, words, "", [false, true, true]) == Ends([false, true, true, false])
    ensures Next(c, words, "", [false, true]) == Ends([false, true, false, false])
  {
    hide LongStep;
    DebugFound(c, words, words[2][2..]);
    assert [] + [false] == [false];
    assert [false, true, true] + [false] == [false, true, true, false];
    assert [false, true] + [false] == [false, true, false];
    assert [false, true, false] + [false] == [false, true, false, false];
    assert c.Mode() == Permute;
  }

  lemma DebugFound(c: Config, words: seq<string>, body: string)
    requires c.longOptions == [LongOption("debug", OptionalArgument, false, OPT_DEBUG)]
    requires |words| >= 3 && body == "--debug"[2..]
    ensures LongStep(c, words, body, 3) == Step(Call(OPT_DEBUG, None, 0), "", 3)
  {
    assert body == "debug" && '=' !in "debug";
    assert FirstIndex(body, '=') == -1;
  }

  /** A word passed over leaves the parse as it was. */
  lemma TakingAtNonOption(c: Config, codes: set<int>, words: seq<string>, decided: seq<bool>)
    requires 1 + |decided| < |words| && IsNonOption(words[1 + |decided|]) && c.Mode() == Permute
    ensures ParseTaking(c, codes, words, "", decided) == ParseTaking(c, codes, words, "", decided + [false])
  {
    assert Next(c, words, "", decided) == Next(c, words, "", decided + [false]);
  }

  /** Unless a word is passed over, the straight scan goes on with what the next call comes to. */
  lemma ScanOfNext(c: Config, words: seq<string>, place: string, decided: seq<bool>)
    requires 1 + |decided| <= |words| && (place != "" ==> 1 + |decided| < |words|)
    requires !(place == "" && 1 + |decided| < |words| && IsNonOption(words[1 + |decided|]) && c.Mode() == Permute)
    ensures
      var p, ahead := 1 + |decided|, Next(c, words, place, decided);
      && ahead.decided == decided
      && if ahead.Ends? then Scan(c, words, place, p) == Parse([], [END])
         else CanTake(words, p, ahead.step) && Scan(c, words, place, p) == Resume(c, words, p, ahead.step)
  {
    hide Scan, NextStep, Resume;
    var p := 1 + |decided|;
    if place == "" && (p == |words| || IsNonOption(words[p])) {
      ScanAtNonOption(c, words, p);
    } else {
      ScanIsResume(c, words, place, p);
    }
  }

  /** A parse by a caller that takes no words is the straight scan. */
  lemma {:induction false} TakingNothing(c: Config, words: seq<string>, place: string, decided: seq<bool>)
    requires 1 + |decided| <= |words| && (place != "" ==> 1 + |decided| < |words|)
    ensures
      var r := Scan(c, words, place, 1 + |decided|);
      ParseTaking(c, {}, words, place, decided) == Parse(decided + r.isOption, r.calls)
    decreases |words| - |decided|, if place == "" && 1 + |decided| < |words| then |words[1 + |decided|]| else |place|
  {
    hide Next, Scan, ParseTaking, Trues;
    var p := 1 + |decided|;
    if place == "" && p < |words| && IsNonOption(words[p]) && c.Mode() == Permute {
      ScanAtNonOption(c, words, p);
      TakingAtNonOption(c, {}, words, decided);
      TakingNothing(c, words, "", decided + [false]);
      Appends(decided, [false], Scan(c, words, "", p + 1).isOption);
    } else {
      ScanOfNext(c, words, place, decided);
      ParseUnfolds(c, {}, words, place, decided);
      var ahead := Next(c, words, place, decided);
      if ahead.Takes? && ahead.step.Step? {
        var s := ahead.step;
        var more := Trues(s.next - p);
        TakingNothing(c, words, s.place, decided + more);
        Appends(decided, more, Scan(c, words, s.place, s.next).isOption);
      } else {
        assert decided + [] == decided;
      }
    }
  }

  lemma Appends(a: seq<bool>, b: seq<bool>, c: seq<bool>)
    ensures a + b + c == a + (b + c)
  {
  }

  /**
    A whole parse by a caller that takes no words: the results are those of a
    straight scan of the original words, the vector ends up stably partitioned,
    and optind is left at the first non-option.
   */
  method ParseAll(argv: array<string>, config: Config) returns (calls: seq<Call>, optind: int)
    requires EndIsOnlyEnd(config)
    modifies argv
    ensures argv.Length == 0 ==> calls == [END] && optind == 1
    ensures argv.Length > 0 ==>
              && calls == Scan(config, old(argv[..]), "", 1).calls
              && argv[..] == Partitioned(old(argv[..]), Scan(config, old(argv[..]), "", 1).isOption)
              && optind == 1 + |Pick(old(argv[..]), Scan(config, old(argv[..]), "", 1).isOption, true)|
  {
    hide Scan, ParseTaking, Partitioned, EndIsOnlyEnd;
    if argv.Length > 0 {
      TakingNothing(config, argv[..], "", []);
      ghost var mask := Scan(config, argv[..], "", 1).isOption;
      assert [] + mask == mask;
    }
    calls, optind := ParseCommandLine(argv, config, {});
  }

  lemma ParseUnfolds(c: Config, codes: set<int>, words: seq<string>, place: string, decided: seq<bool>)
    requires 1 + |decided| <= |words| && (place != "" ==> 1 + |decided| < |words|)
    ensures
      var r, ahead := ParseTaking(c, codes, words, place, decided), Next(c, words, place, decided);
      if ahead.Ends? then r == Parse(ahead.decided, [END])
      else
        && 1 + |ahead.decided| <= ahead.step.next <= |words|
        && if ahead.step.Delimiter? then
             r == Parse(ahead.decided + Trues(ahead.step.next - 1 - |ahead.decided|), [END])
           else
             var (call, place', mask) := Taken(codes, words, ahead.decided, ahead.step);
             && 1 + |mask| <= |words| && (place' != "" ==> 1 + |mask| < |words|)
             && r.isOption == ParseTaking(c, codes, words, place', mask).isOption
             && r.calls == [call] + ParseTaking(c, codes, words, place', mask).calls
  {
  }
}
