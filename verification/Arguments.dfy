/**
  What each option is given: its argument, read off the words themselves, and
  what is returned for an unknown option and for a missing argument.
 */
module GetoptArguments {
  import opened GetoptScanner
  import opened GetoptSpec
  import opened Words

  // ----- the option string

  /** The option string declares the letter after others, and post follows it there. */
  predicate Declares(c: Config, lead: string, pre: string, letter: char, post: string) {
    && c.options == lead + pre + [letter] + post && letter !in pre
    && (lead == "-" || lead == "+" || (lead == "" && c.options[0] != '-' && c.options[0] != '+'))
  }

  /** What is returned for a missing argument: a colon if the option string begins with one, and else '?'. */
  function Missing(c: Config): int {
    if ":" <= c.options || "-:" <= c.options || "+:" <= c.options then ':' as int else '?' as int
  }

  lemma MissingIsBadArg(c: Config)
    ensures c.BadArg() == Missing(c) && c.BadCh() == '?' as int
  {
  }

  lemma DeclaredAt(c: Config, lead: string, pre: string, letter: char, post: string)
    requires Declares(c, lead, pre, letter, post)
    ensures c.Letters() == pre + [letter] + post && FirstIndex(c.Letters(), letter) == |pre|
    ensures CharAt(c.Letters(), |pre| + 1) == CharAt(post, 0) && CharAt(c.Letters(), |pre| + 2) == CharAt(post, 1)
  {
    var letters := c.Letters();
    assert letters == pre + [letter] + post by {
      assert lead == "" ==> lead + pre + [letter] + post == pre + [letter] + post;
      assert |lead| == 1 ==> (lead + pre + [letter] + post)[1..] == pre + [letter] + post;
    }
    assert letters[|pre|] == letter && letters[..|pre|] == pre;
  }

  // ----- short options

  /** The letters that are left to scan in word p. */
  predicate LettersLeft(words: seq<string>, place: string, p: nat, left: string) {
    && p < |words| && left != ""
    && if place != "" then left == place else words[p] == "-" + left && left[0] != '-'
  }

  lemma NextIsShort(c: Config, words: seq<string>, place: string, p: nat, left: string)
    requires LettersLeft(words, place, p, left)
    ensures (place == "" ==> !IsNonOption(words[p])) && NextStep(c, words, place, p) == ShortStep(c, words, left, p)
  {
    assert place == "" ==> words[p][1..] == left;
  }

  /**
    A declared letter: without a colon it has no argument; with one, the rest of
    its word or else the next word; with two, the rest of its word or none.
   */
  lemma LetterArgument(c: Config, lead: string, pre: string, letter: char, post: string, words: seq<string>,
      place: string, p: nat, rest: string)
    requires Declares(c, lead, pre, letter, post) && letter != ':' && !(letter == 'W' && ";" <= post)
    requires LettersLeft(words, place, p, [letter] + rest)
    ensures
      var s := NextStep(c, words, place, p);
      if !(":" <= post) then s == Step(Call(letter as int, None, -1), rest, if rest == "" then p + 1 else p)
      else if rest != "" then s == Step(Call(letter as int, Some(rest), -1), "", p + 1)
      else if "::" <= post then s == Step(Call(letter as int, None, -1), "", p + 1)
      else if p + 1 < |words| then s == Step(Call(letter as int, Some(words[p + 1]), -1), "", p + 2)
      else s == Step(Call(Missing(c), None, -1), "", p + 1)
  {
    var left := [letter] + rest;
    NextIsShort(c, words, place, p, left);
    DeclaredAt(c, lead, pre, letter, post);
    MissingIsBadArg(c);
    assert left[1..] == rest;
  }

  /** A letter that is not declared is an error, and the rest of its word is scanned on. */
  lemma UnknownLetter(c: Config, letter: char, words: seq<string>, place: string, p: nat, rest: string)
    requires letter == ':' || letter !in c.options
    requires LettersLeft(words, place, p, [letter] + rest)
    ensures NextStep(c, words, place, p) == Step(Call('?' as int, None, -1), rest, if rest == "" then p + 1 else p)
  {
    var left := [letter] + rest;
    NextIsShort(c, words, place, p, left);
    assert left[1..] == rest;
    assert letter in c.Letters() ==> letter in c.options;
  }

  /** An argument attached to its letter, as in "-c80". */
  lemma AttachedArgument(c: Config, lead: string, pre: string, post: string, words: seq<string>, p: nat)
    requires p < |words| && |words[p]| > 2 && words[p][0] == '-' && words[p][1] != '-'
    requires words[p][1] != ':' && words[p][1] != 'W' && Declares(c, lead, pre, words[p][1], post) && ":" <= post
    ensures NextStep(c, words, "", p) == Step(Call(words[p][1] as int, Some(words[p][2..]), -1), "", p + 1)
  {
    assert words[p] == "-" + ([words[p][1]] + words[p][2..]);
    LetterArgument(c, lead, pre, words[p][1], post, words, "", p, words[p][2..]);
  }

  /** With this program's letters. */
  lemma CylinderArgument(c: Config)
    requires c.options == SHORT_OPTIONS
    ensures NextStep(c, ["p", "-c80"], "", 1) == Step(Call('c' as int, Some("80"), -1), "", 2)
  {
    SplitAtC();
    AttachedArgument(c, "", "?nmdvfLxb:", ":h:s:H:r:R:g:i:k:z:0:1:D:", ["p", "-c80"], 1);
    assert "-c80"[2..] == "80";
  }

  lemma SplitAtC()
    ensures SHORT_OPTIONS == "" + "?nmdvfLxb:" + ['c'] + ":h:s:H:r:R:g:i:k:z:0:1:D:"
    ensures 'c' !in "?nmdvfLxb:" && SHORT_OPTIONS[0] == '?'
  {
  }

  /** A -W that introduces long options is two dashes, before the rest of its word or before the next word. */
  lemma WIsTwoDashes(c: Config, lead: string, pre: string, post: string, words: seq<string>, place: string, p: nat,
      rest: string)
    requires Declares(c, lead, pre, 'W', post) && ";" <= post
    requires LettersLeft(words, place, p, "W" + rest)
    ensures rest != "" ==>
              NextStep(c, words, place, p) == NextStep(c, words[p := "--" + rest], "", p)
    ensures rest == "" && p + 1 < |words| ==>
              NextStep(c, words, place, p) == NextStep(c, words[p + 1 := "--" + words[p + 1]], "", p + 1)
    ensures rest == "" && p + 1 == |words| ==>
              NextStep(c, words, place, p) == Step(Call(Missing(c), None, -1), "", p + 1)
  {
    hide LongStep;
    var left := "W" + rest;
    NextIsShort(c, words, place, p, left);
    DeclaredAt(c, lead, pre, 'W', post);
    MissingIsBadArg(c);
    assert left[1..] == rest;
    assert ("--" + rest)[2..] == rest;
    if rest != "" {
      OtherWords(c, words, words[p := "--" + rest], rest, p + 1);
    } else if p + 1 < |words| {
      assert ("--" + words[p + 1])[2..] == words[p + 1];
      OtherWords(c, words, words[p + 1 := "--" + words[p + 1]], words[p + 1], p + 2);
    }
  }

  /** A long option depends only on the words from the next one on. */
  lemma OtherWords(c: Config, words: seq<string>, words': seq<string>, body: string, q: nat)
    requires |words'| == |words| && q <= |words| && words'[q..] == words[q..]
    ensures LongStep(c, words', body, q) == LongStep(c, words, body, q)
  {
    assert q < |words| ==> words'[q..][0] == words[q..][0];
  }

  // ----- long options

  /** A long option without '='. */
  lemma LongArgument(c: Config, words: seq<string>, p: nat, key: string, m: int)
    requires p < |words| && words[p] == "--" + key && key != "" && '=' !in key
    requires m == LongMatch(c.longOptions, key, 0, -1)
    ensures !IsNonOption(words[p])
    ensures
      var s := NextStep(c, words, "", p);
      if m < 0 then s == Step(Call('?' as int, None, -1), "", p + 1)
      else
        var option := c.longOptions[m];
        var code := if option.flag then 0 else option.val;
        if !option.hasArg.RequiredArgument? then s == Step(Call(code, None, m), "", p + 1)
        else if p + 1 < |words| then s == Step(Call(code, Some(words[p + 1]), m), "", p + 2)
        else s == Step(Call(Missing(c), None, -1), "", p + 1)
  {
    MissingIsBadArg(c);
    assert words[p][2..] == key;
  }

  /** A long option with '=', and behind it a value or nothing. */
  lemma LongValue(c: Config, words: seq<string>, p: nat, key: string, value: string, m: int)
    requires p < |words| && words[p] == "--" + key + "=" + value && '=' !in key
    requires m == LongMatch(c.longOptions, key, 0, -1)
    ensures !IsNonOption(words[p])
    ensures
      var s := NextStep(c, words, "", p);
      if m < 0 then s == Step(Call('?' as int, None, -1), "", p + 1)
      else
        var option := c.longOptions[m];
        var code := if option.flag then 0 else option.val;
        if option.hasArg.NoArgument? then s == Step(Call(Missing(c), None, -1), "", p + 1)
        else if value != "" then s == Step(Call(code, Some(value), m), "", p + 1)
        else if option.hasArg.OptionalArgument? then s == Step(Call(code, None, m), "", p + 1)
        else if p + 1 < |words| then s == Step(Call(code, Some(words[p + 1]), m), "", p + 2)
        else s == Step(Call(Missing(c), None, -1), "", p + 1)
  {
    MissingIsBadArg(c);
    var body := key + "=" + value;
    assert words[p][2..] == body;
    assert body[|key|] == '=' && body[..|key|] == key && body[|key| + 1..] == value;
  }

  // ----- non-options

  /** A word that is no option is passed over, returned, or ends the parse, as the option string asks for. */
  lemma NonOptionWord(c: Config, words: seq<string>, decided: seq<bool>)
    requires 1 + |decided| < |words|
    requires var word := words[1 + |decided|]; word == "" || word == "-" || word[0] != '-'
    ensures
      var p, next := 1 + |decided|, Next(c, words, "", decided);
      if c.posixlyCorrect || "+" <= c.options then next == Ends(decided)
      else if "-" <= c.options then next == Takes(decided, Step(Call(1, Some(words[p]), -1), "", p + 1))
      else next == Next(c, words, "", decided + [false])
  {
  }

  /** Any other word is an option, and "--" the delimiter. */
  lemma OptionWord(c: Config, words: seq<string>, decided: seq<bool>)
    requires 1 + |decided| < |words|
    requires var word := words[1 + |decided|]; |word| >= 2 && word[0] == '-'
    ensures !IsNonOption(words[1 + |decided|])
    ensures Next(c, words, "", decided) == Takes(decided, NextStep(c, words, "", 1 + |decided|))
    ensures words[1 + |decided|] == "--" ==> NextStep(c, words, "", 1 + |decided|) == Delimiter(2 + |decided|)
  {
  }

  /** The caller's share: the next word, if it has no dash, for an option with one of the codes and no argument. */
  lemma WordTaken(codes: set<int>, words: seq<string>, decided: seq<bool>, s: Step)
    requires s.Step? && 1 + |decided| <= s.next <= |words|
    ensures
      var (call, place, mask) := Taken(codes, words, decided, s);
      && place == s.place && mask == decided + Trues(|mask| - |decided|)
      && if s.place == "" && s.call.code in codes && s.call.arg == None && s.next < |words|
             && !("-" <= words[s.next]) then
           call == s.call.(arg := Some(words[s.next])) && |mask| == s.next
         else call == s.call && |mask| == s.next - 1
  {
    assert Trues(s.next - 1 - |decided|) + [true] == Trues(s.next - |decided|);
  }

  // ----- all calls

  /**
    The argument is the whole last word of the step, which is then not the
    option's own unless a non-option is returned as it is; or it is what follows
    the option's letter or an '=' there.
   */
  ghost predicate FromWords(words: seq<string>, p: nat, s: Step)
    requires s.Step? && s.call.arg.Some? && p <= s.next <= |words|
  {
    && s.next > p
    && var word, arg := words[s.next - 1], s.call.arg.value;
    || (arg == word && (s.next > p + 1 || s.call.code == 1))
    || (IsSuffix(arg, word) && 0 < |arg| < |word|
        && (word[|word| - |arg| - 1] == '=' || word[|word| - |arg| - 1] as int == s.call.code))
  }

  lemma LongFromWords(c: Config, words: seq<string>, body: string, p: nat, q: nat)
    requires p < q <= |words| && IsSuffix(body, words[q - 1])
    ensures
      var s := LongStep(c, words, body, q);
      s.Step? && s.call.arg.Some? ==> FromWords(words, p, s)
  {
    var eq := FirstIndex(body, '=');
    if eq >= 0 {
      SuffixOfSuffix(body[eq + 1..], body, words[q - 1]);
      assert words[q - 1][|words[q - 1]| - |body|..][eq] == body[eq];
    }
  }

  lemma SuffixOfSuffix(a: string, b: string, word: string)
    requires IsSuffix(a, b) && IsSuffix(b, word)
    ensures IsSuffix(a, word)
  {
    assert word[|word| - |a|..] == word[|word| - |b|..][|b| - |a|..];
  }

  lemma ShortFromWords(c: Config, words: seq<string>, place: string, p: nat)
    requires p < |words| && place != "" && IsSuffix(place, words[p])
    ensures
      var s := ShortStep(c, words, place, p);
      s.Step? && s.call.arg.Some? ==> FromWords(words, p, s)
  {
    hide LongStep;
    var rest := place[1..];
    SuffixOfSuffix(rest, place, words[p]);
    assert words[p][|words[p]| - |place|..][0] == place[0];
    LongFromWords(c, words, rest, p, p + 1);
    if p + 1 < |words| {
      WordIsSuffixOfItself(words[p + 1]);
      LongFromWords(c, words, words[p + 1], p, p + 2);
    }
  }

  lemma WordIsSuffixOfItself(word: string)
    ensures IsSuffix(word, word)
    ensures |word| >= 2 ==> IsSuffix(word[2..], word) && IsSuffix(word[1..], word)
  {
  }

  /** Every argument that any call reports is from the words, and letters left to scan are the end of their word. */
  lemma {:induction false} ArgumentsFromWords(c: Config, words: seq<string>, place: string, decided: seq<bool>)
    requires 1 + |decided| <= |words|
    requires place != "" ==> 1 + |decided| < |words| && IsSuffix(place, words[1 + |decided|])
    ensures
      var r := Next(c, words, place, decided);
      r.Takes? && r.step.Step? ==>
        && (r.step.call.arg.Some? ==> FromWords(words, 1 + |r.decided|, r.step))
        && (r.step.place != "" ==> r.step.next < |words| && IsSuffix(r.step.place, words[r.step.next]))
    decreases |words| - |decided|
  {
    hide ShortStep, LongStep, IsSuffix;
    var p := 1 + |decided|;
    if place != "" {
      ShortFromWords(c, words, place, p);
      NextStepEnds(c, words, place, p);
    } else if p < |words| && IsNonOption(words[p]) {
      if c.Mode() == Permute {
        ArgumentsFromWords(c, words, "", decided + [false]);
      }
    } else if p < |words| {
      WordIsSuffixOfItself(words[p]);
      NextStepEnds(c, words, "", p);
      if words[p][1] == '-' {
        LongFromWords(c, words, words[p][2..], p, p + 1);
      } else {
        ShortFromWords(c, words, words[p][1..], p);
      }
    }
  }

  /** An argument taken by the caller or reported is a word, or what follows a letter with that code or an '='. */
  ghost predicate InWord(words: seq<string>, call: Call) {
    call.arg.Some? ==>
      exists q :: 0 < q < |words|
               && (call.arg.value == words[q]
                   || (IsSuffix(call.arg.value, words[q]) && 0 < |call.arg.value| < |words[q]|
                       && (words[q][|words[q]| - |call.arg.value| - 1] == '='
                           || words[q][|words[q]| - |call.arg.value| - 1] as int == call.code)))
  }

  /** So it is throughout a parse, with a caller that takes words or without. */
  lemma {:induction false} ParseFromWords(c: Config, codes: set<int>, words: seq<string>, place: string,
      decided: seq<bool>, k: nat)
    requires 1 + |decided| <= |words|
    requires place != "" ==> 1 + |decided| < |words| && IsSuffix(place, words[1 + |decided|])
    requires k < |ParseTaking(c, codes, words, place, decided).calls|
    ensures InWord(words, ParseTaking(c, codes, words, place, decided).calls[k])
    decreases k
  {
    hide Next, ParseTaking, IsSuffix;
    ArgumentsFromWords(c, words, place, decided);
    ParseUnfolds(c, codes, words, place, decided);
    var ahead := Next(c, words, place, decided);
    if ahead.Takes? && ahead.step.Step? {
      if k == 0 {
        assert ahead.step.call.arg.Some? ==> FromWords(words, 1 + |ahead.decided|, ahead.step);
      } else {
        var (call, after, mask) := Taken(codes, words, ahead.decided, ahead.step);
        ParseFromWords(c, codes, words, after, mask, k - 1);
      }
    }
  }
}
