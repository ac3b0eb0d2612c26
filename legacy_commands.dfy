/**
 * The older command hierarchy: a command is an object with a service context, a name, the
 * number of arguments it needs and a mutable `reply` that running the command (or the
 * manager, on a count failure) overwrites. Error and static commands do nothing when run;
 * the apply command picks its reply from its first argument.
 */
module LegacyCommands {
  import opened Wrappers

  /** Where a command may be used. */
  datatype CommandContext = IRC | DISCORD | BOTH

  const IRC_NAME: string := "IRC"
  const DISCORD_NAME: string := "DISCORD"
  const BOTH_NAME: string := "BOTH"
  const ENUM_PREFIX: string := "No enum constant org.openredstone.commands.CommandContext."

  /** The name `CommandContext.valueOf` accepts for each constant. */
  function ContextName(c: CommandContext): string {
    match c
    case IRC => IRC_NAME
    case DISCORD => DISCORD_NAME
    case BOTH => BOTH_NAME
  }

  /**
   * `CommandContext.valueOf(name)`: exactly the three constant names are accepted, spelt as
   * declared; anything else is an IllegalArgumentException, whose message is the Err.
   */
  function ContextOf(name: string): (r: Result<CommandContext, string>)
    ensures r.Ok? ==> ContextName(r.value) == name
    ensures r.Err? <==> name != IRC_NAME && name != DISCORD_NAME && name != BOTH_NAME
  {
    if name == IRC_NAME then Ok(IRC)
    else if name == DISCORD_NAME then Ok(DISCORD)
    else if name == BOTH_NAME then Ok(BOTH)
    else Err(ENUM_PREFIX + name)
  }

  /** Every context is read back from its own name. */
  lemma ContextRoundTrip(c: CommandContext)
    ensures ContextOf(ContextName(c)) == Ok(c)
  {
  }

  /** What `runCommand` does: nothing (error and static commands), or the apply command's reply choice. */
  datatype Behaviour = NoOp | Apply

  const INVALID_COMMAND: string := "Invalid command."
  const STUDENT_REPLY: string := "To apply for student, hop onto `mc.openredstone.org` on 1.15.2 and run `/apply`"
  const BUILDER_REPLY: string := "To apply for builder, follow the steps outlined here: https://openredstone.org/guides/apply-build-server/."
  const SPECIFY_REPLY: string := "Specify \"builder\" or \"student\"."

  /** The apply command's reply for its first argument. */
  function ApplyReply(arg: string): string {
    if arg == "student" then STUDENT_REPLY
    else if arg == "builder" then BUILDER_REPLY
    else SPECIFY_REPLY
  }

  /**
   * The reply after `runCommand(args)` on a command whose reply was `reply`: unchanged for a
   * no-op command, the apply reply for the first argument otherwise. An apply command run
   * without arguments throws on `args[0]` and leaves the reply as it was.
   */
  function ReplyAfterRun(b: Behaviour, reply: string, args: seq<string>): string {
    match b
    case NoOp => reply
    case Apply => if |args| == 0 then reply else ApplyReply(args[0])
  }

  class Command {
    /** The `type` of the command. */
    const context: CommandContext
    const command: string
    var reply: string
    const requireParameters: nat
    const isPrivateMessageResponse: bool
    const behaviour: Behaviour

    /** `ErrorCommand()`: usable everywhere, no name, and the invalid-command reply. */
    constructor ErrorCommand()
      ensures context == BOTH && command == "" && reply == INVALID_COMMAND
      ensures requireParameters == 0 && !isPrivateMessageResponse && behaviour == NoOp
    {
      context := BOTH;
      command := "";
      reply := INVALID_COMMAND;
      requireParameters := 0;
      isPrivateMessageResponse := false;
      behaviour := NoOp;
    }

    /** `StaticCommand` once its context name has been resolved (see NewStaticCommand). */
    constructor StaticCommand(context: CommandContext, command: string, reply: string)
      ensures this.context == context && this.command == command && this.reply == reply
      ensures requireParameters == 0 && !isPrivateMessageResponse && behaviour == NoOp
    {
      this.context := context;
      this.command := command;
      this.reply := reply;
      requireParameters := 0;
      isPrivateMessageResponse := false;
      behaviour := NoOp;
    }

    /** `ApplyCommand()`: `apply`, usable everywhere, an empty reply until run, one argument needed. */
    constructor ApplyCommand()
      ensures context == BOTH && command == "apply" && reply == ""
      ensures requireParameters == 1 && !isPrivateMessageResponse && behaviour == Apply
    {
      context := BOTH;
      command := "apply";
      reply := "";
      requireParameters := 1;
      isPrivateMessageResponse := false;
      behaviour := Apply;
    }

    /**
     * `runCommand(args)`: only `reply` can change, and only an apply command changes it;
     * `threw` is the IndexOutOfBoundsException of `args[0]` on an empty list.
     */
    method RunCommand(args: seq<string>) returns (threw: bool)
      modifies this`reply
      ensures threw <==> behaviour == Apply && |args| == 0
      ensures reply == ReplyAfterRun(behaviour, old(reply), args)
    {
      threw := false;
      match behaviour {
        case NoOp =>
        case Apply =>
          if |args| == 0 {
            threw := true;
            return;
          }
          if args[0] == "student" {
            reply := STUDENT_REPLY;
          } else if args[0] == "builder" {
            reply := BUILDER_REPLY;
          } else {
            reply := SPECIFY_REPLY;
          }
      }
    }
  }

  /**
   * `StaticCommand(context, command, reply)`: the context name goes through `valueOf`, so a
   * name other than IRC, DISCORD or BOTH makes the construction throw.
   */
  method NewStaticCommand(context: string, command: string, reply: string) returns (r: Result<Command, string>)
    ensures r.Err? <==> ContextOf(context).Err?
    ensures r.Err? ==> r.error == ContextOf(context).error
    ensures r.Ok? ==> fresh(r.value) && ContextName(r.value.context) == context
    ensures r.Ok? ==> r.value.command == command && r.value.reply == reply && r.value.behaviour == NoOp
    ensures r.Ok? ==> r.value.requireParameters == 0 && !r.value.isPrivateMessageResponse
  {
    var resolved := ContextOf(context);
    if resolved.Err? {
      return Err(resolved.error);
    }
    var made := new Command.StaticCommand(resolved.value, command, reply);
    r := Ok(made);
  }

  /**
   * The apply reply depends on the first argument alone: the student and builder replies for
   * exactly those words, which differ from each other, and the "Specify" reply for any other.
   */
  lemma ApplyReplyCases(args: seq<string>, reply: string)
    requires |args| >= 1
    ensures ReplyAfterRun(Apply, reply, args) == ReplyAfterRun(Apply, reply, args[..1])
    ensures ReplyAfterRun(Apply, reply, args) == SPECIFY_REPLY <==> args[0] != "student" && args[0] != "builder"
    ensures ReplyAfterRun(Apply, reply, args) == STUDENT_REPLY <==> args[0] == "student"
    ensures ReplyAfterRun(Apply, reply, args) == BUILDER_REPLY <==> args[0] == "builder"
  {
    assert |SPECIFY_REPLY| < |STUDENT_REPLY| < |BUILDER_REPLY|;
  }
}
