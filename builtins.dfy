/**
 * The predefined commands of the current engine whose replies are pure: base conversion,
 * the apply instructions, the help listing, polls, static replies, the empty-query branch of
 * the search link, and the dice-notation parser used by the roll command.
 */
module Builtins {
  import opened Wrappers
  import opened Text
  import opened Numbers
  import opened Arguments
  import opened Commands
  import opened Dsl

  // ---------------------------------------------------------------- base conversion

  /** The message a NumberFormatException of `Long.parseLong` carries (Java 8 wording). */
  function InvalidNumber(num: string): string {
    "Invalid number: For input string: \"" + num + "\""
  }

  /** `baseConvert`: read `num` as a signed 64-bit number in `oldBase`, print it in `newBase`. */
  function BaseConvert(oldBase: nat, newBase: nat, num: string): string
    requires 2 <= oldBase <= 36 && 2 <= newBase <= 36
  {
    match ParseSigned(num, oldBase, LONG_MIN, LONG_MAX)
    case None => InvalidNumber(num)
    case Some(v) => ToStringRadix(v, newBase)
  }

  /** The first character of a printed number is a sign or a digit, never the `I` of `Invalid`. */
  lemma PrintedNumberIsNotAnError(v: int, radix: nat)
    requires 2 <= radix <= 36
    ensures ToStringRadix(v, radix)[0] != 'I'
  {
    if v >= 0 {
      assert ToStringRadix(v, radix)[0] == Digits(v, radix)[0];
    }
  }

  /**
   * A conversion fails exactly for text that is not a 64-bit number in the old base, and then
   * says so; otherwise it prints the same value in the new base.
   */
  lemma BaseConvertOutcome(oldBase: nat, newBase: nat, num: string)
    requires 2 <= oldBase <= 36 && 2 <= newBase <= 36
    ensures StartsWith(BaseConvert(oldBase, newBase, num), "Invalid number: ") <==>
      ParseSigned(num, oldBase, LONG_MIN, LONG_MAX).None?
    ensures ParseSigned(num, oldBase, LONG_MIN, LONG_MAX).Some? ==>
      var v := ParseSigned(num, oldBase, LONG_MIN, LONG_MAX).value;
      && LONG_MIN <= v <= LONG_MAX
      && ParseSigned(BaseConvert(oldBase, newBase, num), newBase, LONG_MIN, LONG_MAX) == Some(v)
  {
    var parsed := ParseSigned(num, oldBase, LONG_MIN, LONG_MAX);
    if parsed.None? {
      InvalidNumberPrefix(num);
    } else {
      var v := parsed.value;
      ParseSignedBounds(num, oldBase, LONG_MIN, LONG_MAX);
      var out := ToStringRadix(v, newBase);
      assert BaseConvert(oldBase, newBase, num) == out;
      PrintedNumberIsNotAnError(v, newBase);
      SignedRoundTrip(v, newBase, LONG_MIN, LONG_MAX);
      assert !StartsWith(out, "Invalid number: ") by {
        if 16 <= |out| {
          assert out[..16][0] == out[0];
        }
      }
    }
  }

  lemma InvalidNumberPrefix(num: string)
    ensures StartsWith(InvalidNumber(num), "Invalid number: ")
  {
    assert InvalidNumber(num) == "Invalid number: " + ("For input string: \"" + num + "\"");
  }

  /** Converting there and back gives the number as `Long.toString` prints it in the old base. */
  lemma BaseConvertRoundTrip(v: int, oldBase: nat, newBase: nat)
    requires 2 <= oldBase <= 36 && 2 <= newBase <= 36
    requires LONG_MIN <= v <= LONG_MAX
    ensures BaseConvert(oldBase, newBase, ToStringRadix(v, oldBase)) == ToStringRadix(v, newBase)
    ensures BaseConvert(newBase, oldBase, BaseConvert(oldBase, newBase, ToStringRadix(v, oldBase))) == ToStringRadix(v, oldBase)
  {
    SignedRoundTrip(v, oldBase, LONG_MIN, LONG_MAX);
    SignedRoundTrip(v, newBase, LONG_MIN, LONG_MAX);
  }

  const CHECK_FAILED: string := "Check failed."

  /** `shortConvertCommand(old, new)`: refused at construction unless both bases are in 2..36. */
  function ShortConvertCommand(oldBase: int, newBase: int): (r: Result<Command, string>)
    ensures r.Ok? <==> 2 <= oldBase <= 36 && 2 <= newBase <= 36
    ensures r.Err? ==> r.error == CHECK_FAILED
  {
    if 2 <= oldBase <= 36 && 2 <= newBase <= 36 then
      Ok(Command(false, NOT_AUTHORIZED, None, None, [Required("num")],
        (s: Sender, f: Frame) =>
          if |f| == 1 && f[0].Value? then Replied(BaseConvert(oldBase, newBase, f[0].value), []) else Threw))
    else Err(CHECK_FAILED)
  }

  /** A short conversion command takes one number and replies with its conversion; other counts are refused. */
  lemma ShortConvertRun(oldBase: int, newBase: int, sender: Sender, args: seq<string>)
    requires 2 <= oldBase <= 36 && 2 <= newBase <= 36
    ensures var c := ShortConvertCommand(oldBase, newBase).value;
      && (|args| == 1 ==> Run(c, sender, args) == Returned(CommandResponse(false, BaseConvert(oldBase, newBase, args[0]), [])))
      && (|args| == 0 ==> Run(c, sender, args) == Returned(CommandResponse(false, AtLeastMessage(1, 0), [])))
      && (|args| > 1 ==> Run(c, sender, args) == Returned(CommandResponse(false, AtMostMessage(1, |args|), [])))
  {
    var c := ShortConvertCommand(oldBase, newBase).value;
    if |args| == 1 {
      assert Run(c, sender, args) == Returned(CommandResponse(false, BaseConvert(oldBase, newBase, args[0]), [])) by {
        LayoutCounts(c.parameters, 1, 0, false);
        BindOutcome(c.parameters, args);
        assert Bind(c.parameters, args).value == [Value(args[0])];
      }
    } else {
      var k := CountRequired(c.parameters);
      assert k == 1 && !HasVararg(c.parameters) && k + CountOptional(c.parameters) == 1 by {
        LayoutCounts(c.parameters, 1, 0, false);
      }
      assert c.IsAuthorized(sender.roles);
    }
  }

  const INVALID_BASES: string := "Invalid base(s); base 2 to base 36 are supported"

  /** A base as `toIntOrNull` reads it, if it lies in 2..36. */
  function Base(text: string): (r: Option<nat>)
    ensures r.Some? ==> 2 <= r.value <= 36
  {
    match ParseSigned(text, 10, INT_MIN, INT_MAX)
    case Some(b) => if 2 <= b <= 36 then Some(b) else None
    case None => None
  }

  /** The reply of `convertCommand` to `oldBase newBase num`. */
  function ConvertReply(oldBase: string, newBase: string, num: string): string {
    match (Base(oldBase), Base(newBase))
    case (Some(o), Some(n)) => BaseConvert(o, n, num)
    case _ => INVALID_BASES
  }

  const ConvertCommand: Command :=
    Command(false, NOT_AUTHORIZED, None, None, [Required("oldBase"), Required("newBase"), Required("num")],
      (s: Sender, f: Frame) =>
        if |f| == 3 && f[0].Value? && f[1].Value? && f[2].Value? then
          Replied(ConvertReply(f[0].value, f[1].value, f[2].value), [])
        else Threw)

  /** Written in decimal, every base from 2 to 36 is read back as itself. */
  lemma BaseOfDecimal(b: nat)
    requires 2 <= b <= 36
    ensures Base(NatToString(b)) == Some(b)
  {
    SignedRoundTrip(b, 10, INT_MIN, INT_MAX);
  }

  /**
   * The convert command with three tokens replies with the conversion when both bases are
   * decimal numbers in 2..36 and with the unsupported-base message otherwise; a number printed
   * in one base is reprinted in the other, and converting back restores it.
   */
  lemma ConvertRun(sender: Sender, oldBase: string, newBase: string, num: string)
    ensures Run(ConvertCommand, sender, [oldBase, newBase, num]) ==
      Returned(CommandResponse(false, ConvertReply(oldBase, newBase, num), []))
    ensures Base(oldBase).None? || Base(newBase).None? ==> ConvertReply(oldBase, newBase, num) == INVALID_BASES
  {
    var ps := ConvertCommand.parameters;
    LayoutCounts(ps, 3, 0, false);
    BindOutcome(ps, [oldBase, newBase, num]);
  }

  lemma ConvertRoundTrip(v: int, oldBase: nat, newBase: nat)
    requires 2 <= oldBase <= 36 && 2 <= newBase <= 36
    requires LONG_MIN <= v <= LONG_MAX
    ensures ConvertReply(NatToString(oldBase), NatToString(newBase), ToStringRadix(v, oldBase)) == ToStringRadix(v, newBase)
    ensures ConvertReply(NatToString(newBase), NatToString(oldBase),
      ConvertReply(NatToString(oldBase), NatToString(newBase), ToStringRadix(v, oldBase))) == ToStringRadix(v, oldBase)
  {
    BaseOfDecimal(oldBase);
    BaseOfDecimal(newBase);
    BaseConvertRoundTrip(v, oldBase, newBase);
  }

  // ---------------------------------------------------------------- apply

  const STUDENT_REPLY: string := "To apply for student, hop onto `mc.openredstone.org` and run `/apply`"
  const SPECIFY_REPLY: string := "Specify \"student\", \"builder\", or \"engineer\"."

  /** The instructions for one of the three roles, or the request to name one. */
  function ApplyReply(arg: string): string {
    if arg == "student" then STUDENT_REPLY
    else if arg == "builder" then
      "To apply for builder, follow the steps outlined here: " + Link("https://discourse.openredstone.org/builder")
    else if arg == "engineer" then
      "To apply for engineer, follow the steps outlined here: " + Link("https://discourse.openredstone.org/engineer")
    else SPECIFY_REPLY
  }

  const ApplyCommand: Command :=
    Command(false, NOT_AUTHORIZED, None, Some("Instructions to apply."), [Required("arg")],
      (s: Sender, f: Frame) => if |f| == 1 && f[0].Value? then Replied(ApplyReply(f[0].value), []) else Threw)

  /** `apply` with one token answers with the reply for that token. */
  lemma ApplyRun(sender: Sender, arg: string)
    ensures Run(ApplyCommand, sender, [arg]) == Returned(CommandResponse(false, ApplyReply(arg), []))
  {
    var ps := ApplyCommand.parameters;
    LayoutCounts(ps, 1, 0, false);
    BindOutcome(ps, [arg]);
  }

  /** Each of the three roles gets its own instructions; anything else, and only that, gets the request to name a role. */
  lemma ApplyReplyCases(arg: string)
    ensures ApplyReply(arg) == SPECIFY_REPLY <==> arg !in ["student", "builder", "engineer"]
    ensures ApplyReply("student") != ApplyReply("builder") && ApplyReply("builder") != ApplyReply("engineer")
    ensures ApplyReply("engineer") != ApplyReply("student")
  {
    var specify := SPECIFY_REPLY;
    assert specify[|specify| - 1] == '.';
    var student, builder, engineer := ApplyReply("student"), ApplyReply("builder"), ApplyReply("engineer");
    assert student[|student| - 1] == '`';
    assert builder[|builder| - 1] == '>' && builder[|builder| - 2] == 'r';
    assert engineer[|engineer| - 1] == '>' && engineer[|engineer| - 2] == 'r';
    assert builder[|builder| - 3] == 'e' && engineer[|engineer| - 3] == 'e';
    assert builder[|builder| - 4] == 'd' && engineer[|engineer| - 4] == 'e';
  }

  /** Whatever the argument, the apply command answers something. */
  lemma ApplyReplyNonEmpty(arg: string)
    ensures |ApplyReply(arg)| > 0
  {
    assert |STUDENT_REPLY| > 0 && |SPECIFY_REPLY| > 0;
  }

  /** The help text of `apply`: its description, then the usage line. */
  lemma ApplyHelp()
    ensures Help(ApplyCommand, "apply") == "Instructions to apply. Usage: ,apply arg"
  {
    assert ParamsUsage(ApplyCommand.parameters) == "arg" by {
      assert UsageList(ApplyCommand.parameters) == ["arg"];
    }
    assert "Usage: ," + "apply" + " " + "arg" == "Usage: ,apply arg";
    assert "Instructions to apply." + " " + "Usage: ,apply arg" == "Instructions to apply. Usage: ,apply arg";
  }

  // ---------------------------------------------------------------- help

  const NO_SUCH_COMMAND: string := "No such command available"

  /** `order` lists every key of `commands` exactly once, as iterating over the map's keys does. */
  predicate ListsKeys(order: seq<string>, commands: map<string, Command>) {
    && (forall i | 0 <= i < |order| :: order[i] in commands)
    && (forall i, j | 0 <= i < j < |order| :: order[i] != order[j])
    && (forall name | name in commands :: name in order)
  }

  /**
   * The reply of the help command over the registry `commands`, whose keys `order` lists in
   * the map's iteration order: the help of the named command, or the list of all names.
   */
  function HelpReply(commands: map<string, Command>, order: seq<string>, requested: SlotValue): string {
    match requested
    case Value(name) => if name in commands then Help(commands[name], name) else NO_SUCH_COMMAND
    case _ => "Available commands: " + Join(order, ", ")
  }

  function HelpCommand(commands: map<string, Command>, order: seq<string>): (c: Command)
    ensures c.privateReply && c.parameters == [Optional("command")]
  {
    Command(true, NOT_AUTHORIZED, None, None, [Optional("command")],
      (s: Sender, f: Frame) => if |f| == 1 then Replied(HelpReply(commands, order, f[0]), []) else Threw)
  }

  /** `t` occurs in `s` at position `j`. */
  predicate OccursAt(s: string, t: string, j: int) {
    0 <= j <= |s| - |t| && s[j..j + |t|] == t
  }

  /** `s` contains `t` at some position. */
  ghost predicate Contains(s: string, t: string) {
    exists j :: OccursAt(s, t, j)
  }

  /** Every part appears in a join of the parts. */
  lemma {:induction false} JoinContainsParts(parts: seq<string>, separator: string, i: nat)
    requires i < |parts|
    ensures Contains(Join(parts, separator), parts[i])
  {
    var s := Join(parts, separator);
    if |parts| == 1 {
      assert OccursAt(s, parts[0], 0);
    } else {
      var rest := Join(parts[1..], separator);
      assert s == parts[0] + separator + rest;
      if i == 0 {
        assert OccursAt(s, parts[0], 0);
      } else {
        JoinContainsParts(parts[1..], separator, i - 1);
        var j :| OccursAt(rest, parts[1..][i - 1], j);
        var off := |parts[0]| + |separator|;
        assert s[off + j..off + j + |parts[i]|] == rest[j..j + |parts[i]|];
        assert OccursAt(s, parts[i], off + j);
      }
    }
  }

  /**
   * The help command is private; without an argument it lists every registered name, with a
   * known name it gives that command's usage, with an unknown one it says so, and it refuses
   * more than one argument.
   */
  lemma HelpRun(commands: map<string, Command>, order: seq<string>, sender: Sender, args: seq<string>)
    requires ListsKeys(order, commands)
    ensures var r := Run(HelpCommand(commands, order), sender, args);
      && (|args| == 0 ==> (r == Returned(CommandResponse(true, "Available commands: " + Join(order, ", "), []))
            && |order| == |commands|
            && forall name | name in commands :: Contains(r.response.reply, name)))
      && (|args| == 1 && args[0] in commands ==> r == Returned(CommandResponse(true, Help(commands[args[0]], args[0]), [])))
      && (|args| == 1 && args[0] !in commands ==> r == Returned(CommandResponse(true, NO_SUCH_COMMAND, [])))
      && (|args| > 1 ==> r == Returned(CommandResponse(true, AtMostMessage(1, |args|), [])))
  {
    HelpRunReplies(commands, order, sender, args);
    if |args| == 0 {
      assert HelpReply(commands, order, Absent) == "Available commands: " + Join(order, ", ");
      ListingNamesAll(commands, order);
    }
  }

  /** Up to one argument, the help command replies privately with HelpReply; beyond, it refuses. */
  lemma HelpRunReplies(commands: map<string, Command>, order: seq<string>, sender: Sender, args: seq<string>)
    ensures var r := Run(HelpCommand(commands, order), sender, args);
      && (|args| <= 1 ==>
            r == Returned(CommandResponse(true, HelpReply(commands, order, if |args| == 0 then Absent else Value(args[0])), [])))
      && (|args| > 1 ==> r == Returned(CommandResponse(true, AtMostMessage(1, |args|), [])))
  {
    var c := HelpCommand(commands, order);
    assert c.IsAuthorized(sender.roles);
    assert CountRequired(c.parameters) == 0 && CountOptional(c.parameters) == 1 && !HasVararg(c.parameters) by {
      LayoutCounts(c.parameters, 0, 1, false);
    }
    if |args| <= 1 {
      var slot := if |args| == 0 then Absent else Value(args[0]);
      var ps := c.parameters;
      assert BindSlot(ps[0], args, 0) == Some(slot);
      assert Bindable(ps, args);
      assert Bind(ps, args).Some?;
      var frame := Bind(ps, args).value;
      assert |frame| == 1 && frame[0] == slot;
      assert frame == [slot];
    }
  }

  /**
   * The listing reply starts with its heading, joins one part per registered command and
   * names every registered command.
   */
  lemma ListingNamesAll(commands: map<string, Command>, order: seq<string>)
    requires ListsKeys(order, commands)
    ensures var listing := "Available commands: " + Join(order, ", ");
      && StartsWith(listing, "Available commands: ")
      && |order| == |commands|
      && forall name | name in commands :: Contains(listing, name)
  {
    KeyListSize(order, commands);
    var joined := Join(order, ", ");
    forall name | name in commands ensures Contains("Available commands: " + joined, name) {
      var i :| 0 <= i < |order| && order[i] == name;
      JoinContainsParts(order, ", ", i);
      ContainsAfterPrefix("Available commands: ", joined, name);
    }
  }

  /** Text contained in `s` is still contained once something is put in front of `s`. */
  lemma ContainsAfterPrefix(prefix: string, s: string, t: string)
    requires Contains(s, t)
    ensures Contains(prefix + s, t)
  {
    var j :| OccursAt(s, t, j);
    assert (prefix + s)[|prefix| + j..|prefix| + j + |t|] == s[j..j + |t|];
    assert OccursAt(prefix + s, t, |prefix| + j);
  }


  /** A list naming each key exactly once is as long as the map is large. */
  lemma KeyListSize(order: seq<string>, commands: map<string, Command>)
    requires ListsKeys(order, commands)
    ensures |order| == |commands|
  {
    var names := set i | 0 <= i < |order| :: order[i];
    assert names == commands.Keys;
    DistinctSize(order);
  }

  /** A list without repeats has as many distinct elements as it is long. */
  lemma {:induction false} DistinctSize(xs: seq<string>)
    requires forall i, j | 0 <= i < j < |xs| :: xs[i] != xs[j]
    ensures |set i | 0 <= i < |xs| :: xs[i]| == |xs|
  {
    if |xs| > 0 {
      var tail := xs[1..];
      DistinctSize(tail);
      var all := set i | 0 <= i < |xs| :: xs[i];
      var rest := set i | 0 <= i < |tail| :: tail[i];
      assert all == {xs[0]} + rest by {
        forall x | x in all ensures x in {xs[0]} + rest {
          var i :| 0 <= i < |xs| && xs[i] == x;
          if i > 0 { assert tail[i - 1] == x; }
        }
        forall x | x in rest ensures x in all {
          var i :| 0 <= i < |tail| && tail[i] == x;
          assert xs[i + 1] == x;
        }
      }
      assert xs[0] !in rest;
    }
  }


  // ---------------------------------------------------------------- polls

  /** `numberEmoji(n)`: the keycap emoji of a digit 1..9; any other number is an error. */
  function NumberEmoji(n: int): (r: Option<string>)
    ensures r.Some? <==> 1 <= n <= 9
  {
    if 1 <= n <= 9 then Some([DigitChar(n), '\U{FE0F}', '\U{20E3}']) else None
  }

  /** Different numbers give different emoji. */
  lemma NumberEmojiInjective(m: int, n: int)
    requires 1 <= m <= 9 && 1 <= n <= 9 && m != n
    ensures NumberEmoji(m).value != NumberEmoji(n).value
  {
    assert NumberEmoji(m).value[0] != NumberEmoji(n).value[0];
  }

  const NO_OPTIONS: string := "Polls must have at least 1 option"
  const TOO_MANY_OPTIONS: string := "Polls can't have more than 9 options."

  /** The reactions of a poll with `n` options: the emoji of 1..n in order. */
  function PollReactions(n: nat): (r: seq<string>)
    requires n <= 9
    ensures |r| == n
  {
    seq(n, i requires 0 <= i < n => NumberEmoji(i + 1).value)
  }

  /** One line per option: its emoji, a space, the option. */
  function PollLines(options: seq<string>): (r: seq<string>)
    requires |options| <= 9
    ensures |r| == |options|
  {
    seq(|options|, i requires 0 <= i < |options| => NumberEmoji(i + 1).value + " " + options[i])
  }

  /** The outcome of the poll handler for a question and its options. */
  function PollReply(question: string, options: seq<string>): HandlerResult {
    if |options| == 0 then Replied(NO_OPTIONS, [])
    else if |options| > 9 then Replied(TOO_MANY_OPTIONS, [])
    else Replied("Poll: " + question + "\n" + Join(PollLines(options), "\n"), PollReactions(|options|))
  }

  /**
   * The poll handler as written: each option is mapped to its line while its emoji is
   * appended to the reactions, and the lines are joined under the question.
   */
  method Poll(question: string, options: seq<string>) returns (reply: string, reactions: seq<string>)
    ensures Replied(reply, reactions) == PollReply(question, options)
  {
    if |options| == 0 {
      return NO_OPTIONS, [];
    }
    if |options| > 9 {
      return TOO_MANY_OPTIONS, [];
    }
    reactions := [];
    var lines: seq<string> := [];
    var index := 0;
    while index < |options|
      invariant 0 <= index <= |options|
      invariant lines == PollLines(options)[..index]
      invariant reactions == PollReactions(|options|)[..index]
    {
      var emoji := NumberEmoji(index + 1).value;
      assert PollLines(options)[..index + 1] == PollLines(options)[..index] + [emoji + " " + options[index]];
      assert PollReactions(|options|)[..index + 1] == PollReactions(|options|)[..index] + [emoji];
      reactions := reactions + [emoji];
      lines := lines + [emoji + " " + options[index]];
      index := index + 1;
    }
    assert lines == PollLines(options);
    assert reactions == PollReactions(|options|);
    reply := "Poll: " + question + "\n" + Join(lines, "\n");
  }

  const PollCommand: Command :=
    Command(false, NOT_AUTHORIZED, None, None, [Required("question"), Vararg("options")],
      (s: Sender, f: Frame) =>
        if |f| == 2 && f[0].Value? && f[1].Values? then PollReply(f[0].value, f[1].values) else Threw)

  /** `poll question options...` runs the poll handler on the question and the options as given. */
  lemma PollRun(sender: Sender, question: string, options: seq<string>)
    ensures Run(PollCommand, sender, [question] + options) ==
      Returned(CommandResponse(false, PollReply(question, options).reply, PollReply(question, options).reactions))
  {
    var ps := PollCommand.parameters;
    var args := [question] + options;
    LayoutCounts(ps, 1, 0, true);
    BindOutcome(ps, args);
    assert args[1..] == options;
  }

  /** With 1 to 9 options the reactions are the emoji 1..n in order, one per option and all different. */
  lemma PollReactionsDistinct(question: string, options: seq<string>)
    requires 1 <= |options| <= 9
    ensures var r := PollReply(question, options);
      && r.Replied? && |r.reactions| == |options|
      && (forall i | 0 <= i < |options| :: r.reactions[i] == NumberEmoji(i + 1).value)
      && (forall i, j | 0 <= i < j < |options| :: r.reactions[i] != r.reactions[j])
  {
    forall i, j | 0 <= i < j < |options| ensures PollReactions(|options|)[i] != PollReactions(|options|)[j] {
      NumberEmojiInjective(i + 1, j + 1);
    }
  }

  /**
   * Read line by line, the reply of a poll with 1 to 9 options is the question followed by
   * one line per option, that option's emoji, a space and the option (when neither the
   * question nor any option contains a line break).
   */
  lemma PollReplyLines(question: string, options: seq<string>)
    requires 1 <= |options| <= 9
    requires '\n' !in question && forall i | 0 <= i < |options| :: '\n' !in options[i]
    ensures var r := PollReply(question, options);
      && r.Replied?
      && Split(r.reply, '\n') == ["Poll: " + question] + PollLines(options)
  {
    var lines := ["Poll: " + question] + PollLines(options);
    forall i | 0 <= i < |lines| ensures '\n' !in lines[i] {
      if i > 0 {
        var e := NumberEmoji(i).value;
        assert lines[i] == e + " " + options[i - 1];
        assert '\n' !in e;
      }
    }
    assert lines[1..] == PollLines(options);
    assert Join(lines, "\n") == "Poll: " + question + "\n" + Join(PollLines(options), "\n");
    SplitJoin(lines, '\n');
  }

  /** Polls without options or with more than 9 are refused without reactions. */
  lemma PollRefusals(sender: Sender, question: string, options: seq<string>)
    requires |options| == 0 || |options| > 9
    ensures Run(PollCommand, sender, [question] + options) ==
      Returned(CommandResponse(false, if |options| == 0 then NO_OPTIONS else TOO_MANY_OPTIONS, []))
  {
    PollRun(sender, question, options);
  }

  // ---------------------------------------------------------------- static replies

  /** `staticCommand(message)`: no parameters, always the same reply. */
  function StaticCommand(message: string): (c: Command)
    ensures c.parameters == [] && c.authorizedRoles.None?
  {
    Command(false, NOT_AUTHORIZED, None, None, [], (s: Sender, f: Frame) => Replied(message, []))
  }

  /** A static command replies with its message to a bare call and refuses any argument. */
  lemma StaticRun(message: string, sender: Sender, args: seq<string>)
    ensures Run(StaticCommand(message), sender, args) ==
      Returned(CommandResponse(false, if |args| == 0 then message else AtMostMessage(0, |args|), []))
  {
    if |args| == 0 {
      assert Bind([], args) == Some([]);
    }
  }

  // ---------------------------------------------------------------- search link

  const NO_QUERY: string := "No query provided!"

  /** The `lmgtfy` reply; the URL encoder of the words is a parameter. */
  function LmgtfyReply(search: seq<string>, encode: string -> string): string {
    if |search| == 0 then NO_QUERY
    else "<https://letmegoogleforyou.com/?q=" + Join(seq(|search|, i requires 0 <= i < |search| => encode(search[i])), "%20") + ">"
  }

  function LmgtfyCommand(encode: string -> string): (c: Command)
    ensures c.parameters == [Vararg("search")]
  {
    Command(false, NOT_AUTHORIZED, None, None, [Vararg("search")],
      (s: Sender, f: Frame) => if |f| == 1 && f[0].Values? then Replied(LmgtfyReply(f[0].values, encode), []) else Threw)
  }

  /** Without words the search command says so; with words it replies with a suppressed-embed link. */
  lemma LmgtfyRun(encode: string -> string, sender: Sender, args: seq<string>)
    ensures var r := Run(LmgtfyCommand(encode), sender, args);
      && (|args| == 0 ==> r == Returned(CommandResponse(false, NO_QUERY, [])))
      && (|args| > 0 ==> r.Returned? && r.response.reply[0] == '<' && r.response.reply[|r.response.reply| - 1] == '>')
  {
    var ps := LmgtfyCommand(encode).parameters;
    LayoutCounts(ps, 0, 0, true);
    BindOutcome(ps, args);
    assert args[0..] == args;
  }

  // ---------------------------------------------------------------- dice notation

  /** A parsed die: how many to roll and how many sides. */
  datatype Die = Die(repeat: int, sides: int)

  /** `coerceIn(lo..hi)`. */
  function Clamp(v: int, lo: int, hi: int): (r: int)
    requires lo <= hi
    ensures lo <= r <= hi
    ensures lo <= v <= hi ==> r == v
  {
    if v < lo then lo else if v > hi then hi else v
  }

  /**
   * `parseDie`: the whole text must be `(\d*)d(\d+)`; an empty count means one die, the count
   * is clamped to 1..20 and the sides to 2..128, and a number beyond the 32-bit range fails.
   */
  function ParseDie(die: string): (r: Option<Die>)
    ensures r.Some? ==> 1 <= r.value.repeat <= 20 && 2 <= r.value.sides <= 128
  {
    match IndexOf(die, 'd')
    case None => None
    case Some(k) =>
      var count, sides := die[..k], die[k + 1..];
      if !AllDigits(count, 10) || |sides| == 0 || !AllDigits(sides, 10) then None
      else
        var repeat := if |count| == 0 then Some(1) else ParseSigned(count, 10, INT_MIN, INT_MAX);
        var kind := ParseSigned(sides, 10, INT_MIN, INT_MAX);
        if repeat.None? || kind.None? then None
        else Some(Die(Clamp(repeat.value, 1, 20), Clamp(kind.value, 2, 128)))
  }

  /** Decimal digits never include the `d` separator. */
  lemma NoSeparatorInDigits(s: string)
    requires AllDigits(s, 10)
    ensures 'd' !in s
  {
    forall i | 0 <= i < |s| ensures s[i] != 'd' {
      assert DigitOf(s[i], 10) >= 0;
    }
  }

  /**
   * Written as `<count>d<sides>` in decimal, a die is read back with both numbers clamped into
   * range, or fails when a number does not fit in 32 bits.
   */
  lemma ParseDieOfNotation(count: nat, sides: nat)
    ensures ParseDie(NatToString(count) + "d" + NatToString(sides)) ==
      if count <= INT_MAX && sides <= INT_MAX then Some(Die(Clamp(count, 1, 20), Clamp(sides, 2, 128))) else None
  {
    var c, t := NatToString(count), NatToString(sides);
    ParseDecimal(count);
    ParseDecimal(sides);
    NoSeparatorInDigits(c);
    IndexOfAfter(c, 'd', t);
    var s := c + "d" + t;
    assert s[..|c|] == c && s[|c| + 1..] == t;
  }

  /** Without a count, the notation means one die. */
  lemma ParseDieWithoutCount(sides: nat)
    ensures ParseDie("d" + NatToString(sides)) ==
      if sides <= INT_MAX then Some(Die(1, Clamp(sides, 2, 128))) else None
  {
    var t := NatToString(sides);
    ParseDecimal(sides);
    IndexOfAfter("", 'd', t);
    assert "d" + t == "" + ['d'] + t;
    assert ("d" + t)[..0] == "" && ("d" + t)[1..] == t;
  }

  /**
   * Only the whole-string pattern `(\d*)d(\d+)` is accepted: an accepted text is decimal digits,
   * the separator, then at least one decimal digit.
   */
  lemma ParseDieShape(die: string)
    ensures ParseDie(die).Some? ==> exists k | 0 <= k < |die| ::
      && die[k] == 'd' && AllDigits(die[..k], 10)
      && k + 1 < |die| && AllDigits(die[k + 1..], 10)
  {
    if ParseDie(die).Some? {
      var k := IndexOf(die, 'd').value;
      assert die[k] == 'd';
    }
  }

  /**
   * Any text of the pattern, leading zeros included, is read as its digit values: an empty
   * count means one die, both numbers are clamped into range, and a number beyond the 32-bit
   * range fails.
   */
  lemma ParseDieOfDigits(count: string, sides: string)
    requires AllDigits(count, 10) && |sides| > 0 && AllDigits(sides, 10)
    ensures var n := if |count| == 0 then 1 else DigitsValue(count, 10);
      var t := DigitsValue(sides, 10);
      ParseDie(count + "d" + sides) ==
        if n <= INT_MAX && t <= INT_MAX then Some(Die(Clamp(n, 1, 20), Clamp(t, 2, 128))) else None
  {
    NoSeparatorInDigits(count);
    IndexOfAfter(count, 'd', sides);
    var s := count + "d" + sides;
    assert s == count + ['d'] + sides;
    assert s[..|count|] == count && s[|count| + 1..] == sides;
    if |count| > 0 {
      ReadDecimalDigits(count);
    }
    ReadDecimalDigits(sides);
  }

  /** `toIntOrNull` of a non-empty run of decimal digits is its value when it fits in 32 bits. */
  lemma ReadDecimalDigits(s: string)
    requires |s| > 0 && AllDigits(s, 10)
    ensures ParseSigned(s, 10, INT_MIN, INT_MAX) ==
      if DigitsValue(s, 10) <= INT_MAX then Some(DigitsValue(s, 10) as int) else None
  {
    assert DigitOf(s[0], 10) >= 0;
    ParseUnsigned(s, 10, INT_MIN, INT_MAX);
  }

  /** Anything without the `d` separator, or with nothing after it, is not dice notation. */
  lemma ParseDieRejects(die: string)
    ensures 'd' !in die ==> ParseDie(die).None?
    ensures |die| > 0 && die[|die| - 1] == 'd' && 'd' !in die[..|die| - 1] ==> ParseDie(die).None?
  {
    if |die| > 0 && die[|die| - 1] == 'd' && 'd' !in die[..|die| - 1] {
      IndexOfAfter(die[..|die| - 1], 'd', []);
      assert die == die[..|die| - 1] + ['d'] + [];
    }
  }
}
