/**
  What one parse of an argument vector must do, stated on the vector as the
  caller passed it.  Nothing here permutes anything: the scan runs straight
  through the original words and says, for every word it consumes, whether it
  belongs to the options or to the non-options, and which result each call
  returns.
 */
module GetoptSpec {
  import opened Words

  datatype HasArg = NoArgument | RequiredArgument | OptionalArgument

  /** A long option; flag tells whether the caller supplied a variable to store val in. */
  datatype LongOption = LongOption(name: string, hasArg: HasArg, flag: bool, val: int)

  /** PERMUTE, IN_ORDER, or neither of them. */
  datatype Mode = Permute | InOrder | StopAtFirst

  /** The caller's option tables and the POSIXLY_CORRECT environment variable. */
  datatype Config = Config(options: string, longOptions: seq<LongOption>, posixlyCorrect: bool) {

    predicate IgnoreFirst() {
      options != "" && (options[0] == '-' || options[0] == '+')
    }

    function Mode(): Mode {
      if !posixlyCorrect && !IgnoreFirst() then Permute
      else if !posixlyCorrect && options != "" && options[0] == '-' then InOrder
      else StopAtFirst
    }

    /** The option letters that strchr searches. */
    function Letters(): string {
      if IgnoreFirst() then options[1..] else options
    }

    /** The BADARG return value. */
    function BadArg(): int {
      if (IgnoreFirst() && |options| > 1 && options[1] == ':') || (options != "" && options[0] == ':')
      then ':' as int else '?' as int
    }

    /** The BADCH return value. */
    function BadCh(): int {
      '?' as int
    }
  }

  /** What a call hands to its caller; matched is the index reported through idx, -1 when none is. */
  datatype Call = Call(code: int, arg: Option<string>, matched: int)

  const END := Call(-1, None, -1)

  /** One option-consuming call: its result, the rest of the word being scanned, and the next word. */
  datatype Step = Step(call: Call, place: string, next: nat) | Delimiter(next: nat)

  function FirstIndex(s: string, c: char): (i: int)
    ensures -1 <= i < |s|
    ensures i >= 0 ==> s[i] == c && c !in s[..i]
    ensures i == -1 ==> c !in s
  {
    if s == "" then -1
    else if s[0] == c then 0
    else
      var i := FirstIndex(s[1..], c);
      assert s == [s[0]] + s[1..];
      if i == -1 then -1 else
        assert s[..i + 1] == [s[0]] + s[1..][..i];
        i + 1
  }

  /** A character of a C string, with its terminator read as '\0'. */
  function CharAt(s: string, i: nat): char {
    if i < |s| then s[i] else '\0'
  }

  predicate IsNonOption(word: string) {
    |word| < 2 || word[0] != '-'
  }

  /**
    The long option that key picks: the search ends at an exact match or, with
    -2, at the second longer name that key abbreviates, whichever comes first.
   */
  function LongMatch(names: seq<LongOption>, key: string, i: nat, found: int): (m: int)
    requires i <= |names| && -1 <= found < i
    ensures -2 <= m < |names|
    decreases |names| - i
  {
    if i == |names| then found
    else if !(key <= names[i].name) then LongMatch(names, key, i + 1, found)
    else if |names[i].name| == |key| then i
    else if found == -1 then LongMatch(names, key, i + 1, i)
    else -2
  }

  /** A long option whose text is body; q is the word after the one holding it. */
  function LongStep(c: Config, words: seq<string>, body: string, q: nat): (s: Step)
    requires q <= |words|
    ensures q <= s.next <= q + 1 && s.next <= |words|
    ensures s.Step? ==> s.place == ""
  {
    if body == "" then Delimiter(q)
    else
      var eq := FirstIndex(body, '=');
      var key := if eq == -1 then body else body[..eq];
      var m := LongMatch(c.longOptions, key, 0, -1);
      if m < 0 then Step(Call(c.BadCh(), None, -1), "", q)
      else
        var option := c.longOptions[m];
        var code := if option.flag then 0 else option.val;
        if option.hasArg.NoArgument? && eq != -1 then Step(Call(c.BadArg(), None, -1), "", q)
        else if !option.hasArg.NoArgument? && eq != -1 && eq + 1 < |body| then
          Step(Call(code, Some(body[eq + 1..]), m), "", q)
        else if option.hasArg.RequiredArgument? then
          if q == |words| then Step(Call(c.BadArg(), None, -1), "", q)
          else Step(Call(code, Some(words[q]), m), "", q + 1)
        else Step(Call(code, None, m), "", q)
  }

  /** A short option, the first letter of place, in word p. */
  function ShortStep(c: Config, words: seq<string>, place: string, p: nat): (s: Step)
    requires p < |words| && place != ""
    ensures p <= s.next <= |words|
    ensures s.Step? && s.next == p ==> s.place != "" && |s.place| < |place|
    ensures s.Step? && s.next > p ==> s.place == ""
    ensures s.Delimiter? ==> p < s.next
  {
    var letters := c.Letters();
    var letter, rest := place[0], place[1..];
    var i := if letter == ':' then -1 else FirstIndex(letters, letter);
    var after := if rest == "" then p + 1 else p;
    if i == -1 then Step(Call(c.BadCh(), None, -1), rest, after)
    else if letter == 'W' && CharAt(letters, i + 1) == ';' then
      if rest != "" then LongStep(c, words, rest, p + 1)
      else if p + 1 == |words| then Step(Call(c.BadArg(), None, -1), "", p + 1)
      else LongStep(c, words, words[p + 1], p + 2)
    else if CharAt(letters, i + 1) != ':' then Step(Call(letter as int, None, -1), rest, after)
    else if rest != "" then Step(Call(letter as int, Some(rest), -1), "", p + 1)
    else if CharAt(letters, i + 2) == ':' then Step(Call(letter as int, None, -1), "", p + 1)
    else if p + 1 == |words| then Step(Call(c.BadArg(), None, -1), "", p + 1)
    else Step(Call(letter as int, Some(words[p + 1]), -1), "", p + 2)
  }

  /** The step that a parse takes next in a word that is an option, or has letters left. */
  function NextStep(c: Config, words: seq<string>, place: string, p: nat): Step
    requires p < |words| && (place == "" ==> !IsNonOption(words[p]))
  {
    if place != "" then ShortStep(c, words, place, p)
    else if words[p][1] == '-' then LongStep(c, words, words[p][2..], p + 1)
    else ShortStep(c, words, words[p][1..], p)
  }

  /** The step s can be taken in word p: it ends the word, or leaves letters of it to scan. */
  predicate CanTake(words: seq<string>, p: nat, s: Step) {
    && p <= s.next <= |words|
    && (s.Step? ==> if s.next == p then p < |words| && s.place != "" else s.place == "")
  }

  /** For the words still to be consumed, which belong to options; and the results still to be returned. */
  datatype Parse = Parse(isOption: seq<bool>, calls: seq<Call>)

  function Trues(k: nat): (s: seq<bool>)
    ensures |s| == k
  {
    seq(k, _ => true)
  }

  /** The rest of a parse that has reached word p with place left to scan in it. */
  function Scan(c: Config, words: seq<string>, place: string, p: nat): (r: Parse)
    requires p <= |words| && (place != "" ==> p < |words|)
    ensures p + |r.isOption| <= |words|
    ensures 0 < |r.calls|
    decreases |words| - p, if place == "" && p < |words| then |words[p]| else |place|, 1
  {
    if place != "" then After(c, words, p, ShortStep(c, words, place, p), |place|)
    else if p == |words| then Parse([], [END])
    else if IsNonOption(words[p]) then
      match c.Mode()
      case Permute =>
        var r := Scan(c, words, "", p + 1);
        Parse([false] + r.isOption, r.calls)
      case InOrder =>
        var r := Scan(c, words, "", p + 1);
        Parse([true] + r.isOption, [Call(1, Some(words[p]), -1)] + r.calls)
      case StopAtFirst => Parse([], [END])
    else if words[p][1] == '-' then
      After(c, words, p, LongStep(c, words, words[p][2..], p + 1), 0)
    else
      After(c, words, p, ShortStep(c, words, words[p][1..], p), |words[p]|)
  }

  /** The rest of a parse whose current call, in word p, takes step s. */
  function After(c: Config, words: seq<string>, p: nat, s: Step, room: nat): (r: Parse)
    requires p <= s.next <= |words|
    requires s.Step? && s.next == p ==> p < |words| && s.place != "" && |s.place| < room
    requires s.Step? && s.next > p ==> s.place == ""
    ensures p + |r.isOption| <= |words|
    ensures 0 < |r.calls|
    decreases |words| - p, room, 0
  {
    match s
    case Delimiter(next) => Parse(Trues(next - p), [END])
    case Step(call, place, next) =>
      var r := Scan(c, words, place, next);
      Parse(Trues(next - p) + r.isOption, [call] + r.calls)
  }

  /** What a call comes to, with what is decided about the words by then: the end, or a step. */
  datatype Ahead = Ends(decided: seq<bool>) | Takes(decided: seq<bool>, step: Step)

  /** What the next call comes to, with place left to scan in the word after those decided about. */
  function Next(c: Config, words: seq<string>, place: string, decided: seq<bool>): (r: Ahead)
    requires 1 + |decided| <= |words| && (place != "" ==> 1 + |decided| < |words|)
    ensures decided <= r.decided && 1 + |r.decided| <= |words|
    ensures r.Takes? ==> CanTake(words, 1 + |r.decided|, r.step)
    ensures r.Takes? && r.step.Delimiter? ==> 1 + |r.decided| < r.step.next
    ensures r.Takes? && r.step.Step? && r.step.next == 1 + |decided| ==>
              |r.step.place| < if place == "" then |words[1 + |decided|]| else |place|
    decreases |words| - |decided|
  {
    var p := 1 + |decided|;
    if place == "" && p == |words| then Ends(decided)
    else if place == "" && IsNonOption(words[p]) then
      match c.Mode()
      case Permute => Next(c, words, "", decided + [false])
      case InOrder => Takes(decided, Step(Call(1, Some(words[p]), -1), "", p + 1))
      case StopAtFirst => Ends(decided)
    else Takes(decided, NextStep(c, words, place, p))
  }

  /** The caller takes the word after an option that has one of these codes and no argument, unless it has a dash. */
  predicate TakesWord(codes: set<int>, words: seq<string>, s: Step) {
    && s.Step? && s.place == "" && s.call.code in codes && s.call.arg.None?
    && s.next < |words| && !(words[s.next] != "" && words[s.next][0] == '-')
  }

  /** What a call and its caller make of a step in the word after those decided about: call, place, decisions. */
  function Taken(codes: set<int>, words: seq<string>, decided: seq<bool>, s: Step): (r: (Call, string, seq<bool>))
    requires s.Step? && 1 + |decided| <= s.next
  {
    var mask := decided + Trues(s.next - 1 - |decided|);
    if TakesWord(codes, words, s) then (s.call.(arg := Some(words[s.next])), s.place, mask + [true])
    else (s.call, s.place, mask)
  }

  /** A whole parse by a caller that takes such words: all decisions, and the results as the caller sees them. */
  function ParseTaking(c: Config, codes: set<int>, words: seq<string>, place: string, decided: seq<bool>): (r: Parse)
    requires 1 + |decided| <= |words| && (place != "" ==> 1 + |decided| < |words|)
    ensures 1 + |r.isOption| <= |words| && 0 < |r.calls|
    decreases |words| - |decided|, if place == "" && 1 + |decided| < |words| then |words[1 + |decided|]| else |place|
  {
    var ahead := Next(c, words, place, decided);
    if ahead.Ends? then Parse(ahead.decided, [END])
    else if ahead.step.Delimiter? then Parse(ahead.decided + Trues(ahead.step.next - 1 - |ahead.decided|), [END])
    else
      var (call, place', mask) := Taken(codes, words, ahead.decided, ahead.step);
      var r := ParseTaking(c, codes, words, place', mask);
      Parse(r.isOption, [call] + r.calls)
  }

  /** The words that the mask marks with b, in their original order. */
  function Chosen(words: seq<string>, mask: seq<bool>, b: bool): (r: seq<string>)
    requires |mask| <= |words|
    ensures |r| <= |mask|
    decreases |mask|
  {
    var k := |mask|;
    if k == 0 then []
    else Chosen(words, mask[..k - 1], b) + (if mask[k - 1] == b then [words[k - 1]] else [])
  }

  /** Of the words after the program name. */
  function Pick(words: seq<string>, isOption: seq<bool>, b: bool): (r: seq<string>)
    requires |isOption| < |words|
    ensures |r| <= |isOption|
  {
    Chosen(words[1..], isOption, b)
  }

  /** The vector after a complete parse: program name, options, non-options, and what was never scanned. */
  function Partitioned(words: seq<string>, isOption: seq<bool>): seq<string>
    requires |isOption| < |words|
  {
    words[..1] + Pick(words, isOption, true) + Pick(words, isOption, false) + words[1 + |isOption|..]
  }
}
