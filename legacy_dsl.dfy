/**
 * The older argument DSL. It declares slots under the same order rules as the current one,
 * but it has no authorization step, `reply` may be called anywhere in the block (the last
 * call wins), the block fails with "no reply supplied" when it never calls `reply`, and a run
 * returns the reply text alone. The built command checks the argument count itself: its
 * `requireParameters` is always 0.
 */
module LegacyDsl {
  import opened Wrappers
  import opened Text
  import opened Arguments

  datatype Service = DISCORD | IRC

  /** Who sent a command: the service it came from, a display name and role names. */
  datatype Sender = Sender(service: Service, username: string, roles: seq<string>)

  /** One run of a reply handler (or of a command): the reply text, or an exception. */
  datatype Outcome = Said(reply: string) | Thrown

  type Handler = (Sender, Frame) -> Outcome

  /** `ReplyScope.link`: angle brackets around the link on Discord (no embed), the bare link on IRC. */
  function Link(sender: Sender, link: string): (r: string)
    ensures sender.service == IRC ==> r == link
    ensures sender.service == DISCORD ==>
      |r| == |link| + 2 && r[0] == '<' && r[1..|r| - 1] == link && r[|r| - 1] == '>'
  {
    match sender.service
    case DISCORD => "<" + link + ">"
    case IRC => link
  }

  /**
   * What one `reply` call captures: the privacy flag, the slot list rendered for the help
   * text at the time of the call, and the handler.
   */
  datatype ReplyObject = ReplyObject(privateReply: bool, params: string, handler: Handler)

  /**
   * A built command. The slot list and the help text are those the scope holds when the block
   * ends (the reply object reads them from the scope when it runs), while `params` is the
   * rendering taken when `reply` was called.
   */
  datatype Command = Command(
    privateReply: bool,
    requireParameters: nat,
    params: string,
    help: Option<string>,
    parameters: seq<Argument>,
    handler: Handler)

  const NO_REPLY: string := "no reply supplied"

  /** The receiver of a `command { ... }` block. */
  class CommandScope {
    var help: Option<string>
    var requiredParameters: nat
    var optionalParameters: nat
    var vararg: bool
    var parameters: seq<Argument>
    var command: Option<ReplyObject>

    /** The counters describe the slot list, and the slot list has the declared-order shape. */
    ghost predicate Valid()
      reads this
    {
      && requiredParameters == CountRequired(parameters)
      && optionalParameters == CountOptional(parameters)
      && vararg == HasVararg(parameters)
      && WellShaped(parameters)
    }

    constructor()
      ensures Valid()
      ensures help == None && parameters == [] && command == None
    {
      help := None;
      requiredParameters := 0;
      optionalParameters := 0;
      vararg := false;
      parameters := [];
      command := None;
    }

    /** `required()`: refused after a vararg or right after an optional or default slot. */
    method DeclareRequired(name: string) returns (rejected: Option<string>)
      requires Valid()
      modifies this
      ensures Valid() && help == old(help) && command == old(command)
      ensures rejected == Rejection(old(parameters), Required(name))
      ensures parameters == if rejected.None? then old(parameters) + [Required(name)] else old(parameters)
    {
      if vararg {
        return Some(REQUIRED_AFTER_VARARG);
      }
      if |parameters| > 0 && parameters[|parameters| - 1].Optional? {
        return Some(REQUIRED_AFTER_OPTIONAL);
      }
      if |parameters| > 0 && parameters[|parameters| - 1].Default? {
        return Some(REQUIRED_AFTER_DEFAULT);
      }
      Append(Required(name));
      requiredParameters := requiredParameters + 1;
      rejected := None;
    }

    /** `optional()`: refused after a vararg. */
    method DeclareOptional(name: string) returns (rejected: Option<string>)
      requires Valid()
      modifies this
      ensures Valid() && help == old(help) && command == old(command)
      ensures rejected == Rejection(old(parameters), Optional(name))
      ensures parameters == if rejected.None? then old(parameters) + [Optional(name)] else old(parameters)
    {
      if vararg {
        return Some(OPTIONAL_AFTER_VARARG);
      }
      Append(Optional(name));
      optionalParameters := optionalParameters + 1;
      rejected := None;
    }

    /** `default(value)`: refused after a vararg. */
    method DeclareDefault(name: string, value: string) returns (rejected: Option<string>)
      requires Valid()
      modifies this
      ensures Valid() && help == old(help) && command == old(command)
      ensures rejected == Rejection(old(parameters), Default(name, value))
      ensures parameters == if rejected.None? then old(parameters) + [Default(name, value)] else old(parameters)
    {
      if vararg {
        return Some(DEFAULT_AFTER_VARARG);
      }
      Append(Default(name, value));
      optionalParameters := optionalParameters + 1;
      rejected := None;
    }

    /** `vararg()`: refused after another vararg. */
    method DeclareVararg(name: string) returns (rejected: Option<string>)
      requires Valid()
      modifies this
      ensures Valid() && help == old(help) && command == old(command)
      ensures rejected == Rejection(old(parameters), Vararg(name))
      ensures parameters == if rejected.None? then old(parameters) + [Vararg(name)] else old(parameters)
    {
      if vararg {
        return Some(VARARG_AFTER_VARARG);
      }
      Append(Vararg(name));
      vararg := true;
      rejected := None;
    }

    /** `parameters.add(it)` once the checks passed; the caller then bumps the matching counter. */
    method Append(a: Argument)
      requires Valid() && Rejection(parameters, a).None?
      modifies this`parameters
      ensures parameters == old(parameters) + [a]
      ensures CountRequired(parameters) == requiredParameters + (if a.Required? then 1 else 0)
      ensures CountOptional(parameters) == optionalParameters + (if a.Optional? || a.Default? then 1 else 0)
      ensures HasVararg(parameters) == (vararg || a.Vararg?)
      ensures WellShaped(parameters)
    {
      CountsAppend(parameters, a);
      DeclarationKeepsShape(parameters, a);
      parameters := parameters + [a];
    }

    /** One declaration of either kind. */
    method Declare(a: Argument) returns (rejected: Option<string>)
      requires Valid()
      modifies this
      ensures Valid() && help == old(help) && command == old(command)
      ensures rejected == Rejection(old(parameters), a)
      ensures parameters == if rejected.None? then old(parameters) + [a] else old(parameters)
    {
      match a
      case Required(n) => rejected := DeclareRequired(n);
      case Optional(n) => rejected := DeclareOptional(n);
      case Default(n, d) => rejected := DeclareDefault(n, d);
      case Vararg(n) => rejected := DeclareVararg(n);
    }

    /** `reply(isPrivate, message)`: replaces any earlier reply and renders the slots declared so far. */
    method Reply(isPrivate: bool, handler: Handler)
      modifies this`command
      ensures command == Some(ReplyObject(isPrivate, ParamsUsage(parameters), handler))
    {
      command := Some(ReplyObject(isPrivate, ParamsUsage(parameters), handler));
    }

    /** One statement of the configuration block, executed against this scope. */
    method Perform(s: Step) returns (rejected: Option<string>)
      requires Valid()
      modifies this
      ensures Valid()
      ensures rejected == if s.Declare? then Rejection(old(parameters), s.argument) else None
      ensures parameters == if s.Declare? && rejected.None? then old(parameters) + [s.argument] else old(parameters)
      ensures help == if s.SetHelp? then s.text else old(help)
      ensures command == if s.SetReply? then Some(ReplyObject(s.isPrivate, ParamsUsage(old(parameters)), s.handler)) else old(command)
    {
      rejected := None;
      match s {
        case Declare(a) =>
          rejected := Declare(a);
        case SetHelp(text) =>
          help := text;
        case SetReply(isPrivate, handler) =>
          Reply(isPrivate, handler);
      }
    }

    /** `buildCommand()`: the reply object, reading the scope's final help and slots, or an error without one. */
    method BuildCommand() returns (r: Result<Command, string>)
      ensures r.Err? <==> command.None?
      ensures r.Err? ==> r.error == NO_REPLY
      ensures r.Ok? ==> r.value == Command(command.value.privateReply, 0, command.value.params,
        help, parameters, command.value.handler)
    {
      if command.None? {
        return Err(NO_REPLY);
      }
      var reply := command.value;
      r := Ok(Command(reply.privateReply, 0, reply.params, help, parameters, reply.handler));
    }
  }

  // ---------------------------------------------------------------- the configuration block

  /** One statement of a `command { ... }` block. */
  datatype Step =
    | Declare(argument: Argument)
    | SetHelp(text: Option<string>)
    | SetReply(isPrivate: bool, handler: Handler)

  /** The slots the block declares, in order. */
  function Declared(steps: seq<Step>): seq<Argument> {
    if |steps| == 0 then []
    else Declared(steps[..|steps| - 1]) + (if steps[|steps| - 1].Declare? then [steps[|steps| - 1].argument] else [])
  }

  /** The help text when the block ends: the last one assigned, none if never assigned. */
  function FinalHelp(steps: seq<Step>): Option<string> {
    if |steps| == 0 then None
    else if steps[|steps| - 1].SetHelp? then steps[|steps| - 1].text
    else FinalHelp(steps[..|steps| - 1])
  }

  /** The index of the last `reply` call, if any. */
  function LastReply(steps: seq<Step>): (r: Option<nat>)
    ensures r.Some? ==> r.value < |steps| && steps[r.value].SetReply?
    ensures r.Some? ==> forall i | r.value < i < |steps| :: !steps[i].SetReply?
    ensures r.None? ==> forall i | 0 <= i < |steps| :: !steps[i].SetReply?
  {
    if |steps| == 0 then None
    else if steps[|steps| - 1].SetReply? then Some(|steps| - 1)
    else LastReply(steps[..|steps| - 1])
  }

  /** The message of the first declaration the order rules refuse, if any. */
  function FirstRejection(steps: seq<Step>): Option<string> {
    if |steps| == 0 then None
    else
      var init := steps[..|steps| - 1];
      if FirstRejection(init).Some? then FirstRejection(init)
      else if steps[|steps| - 1].Declare? then Rejection(Declared(init), steps[|steps| - 1].argument)
      else None
  }

  /** The reply object the scope holds after the statements: that of the last `reply` call. */
  function PendingReply(steps: seq<Step>): Option<ReplyObject> {
    if |steps| == 0 then None
    else
      var init, s := steps[..|steps| - 1], steps[|steps| - 1];
      if s.SetReply? then Some(ReplyObject(s.isPrivate, ParamsUsage(Declared(init)), s.handler))
      else PendingReply(init)
  }

  /**
   * `command(configure)`: the first refused declaration throws out of the block; a block that
   * never replies fails with "no reply supplied"; otherwise the last reply object, over the
   * block's final help text and slots.
   */
  function Configured(steps: seq<Step>): Result<Command, string> {
    match FirstRejection(steps)
    case Some(e) => Err(e)
    case None =>
      match PendingReply(steps)
      case None => Err(NO_REPLY)
      case Some(o) => Ok(Command(o.privateReply, 0, o.params, FinalHelp(steps), Declared(steps), o.handler))
  }

  /** How one more statement changes what the block has declared, set and replied so far. */
  lemma StepEffect(steps: seq<Step>, i: nat)
    requires i < |steps|
    ensures var pre, next, s := steps[..i], steps[..i + 1], steps[i];
      && Declared(next) == Declared(pre) + (if s.Declare? then [s.argument] else [])
      && FinalHelp(next) == (if s.SetHelp? then s.text else FinalHelp(pre))
      && PendingReply(next) ==
           (if s.SetReply? then Some(ReplyObject(s.isPrivate, ParamsUsage(Declared(pre)), s.handler)) else PendingReply(pre))
      && FirstRejection(next) ==
           (if FirstRejection(pre).Some? then FirstRejection(pre)
            else if s.Declare? then Rejection(Declared(pre), s.argument) else None)
  {
    assert steps[..i + 1][..i] == steps[..i];
  }

  /** The statements of the block executed in order against a fresh scope, then `buildCommand()`. */
  method Build(steps: seq<Step>) returns (r: Result<Command, string>)
    ensures r == Configured(steps)
  {
    var scope := new CommandScope();
    var i := 0;
    while i < |steps|
      invariant 0 <= i <= |steps|
      invariant scope.Valid()
      invariant FirstRejection(steps[..i]).None?
      invariant scope.parameters == Declared(steps[..i])
      invariant scope.help == FinalHelp(steps[..i])
      invariant scope.command == PendingReply(steps[..i])
    {
      var rejected := scope.Perform(steps[i]);
      StepEffect(steps, i);
      if rejected.Some? {
        FirstRejectionPrefix(steps, i + 1);
        return Err(rejected.value);
      }
      i := i + 1;
    }
    assert steps[..i] == steps;
    r := scope.BuildCommand();
  }

  /** The pending reply object is the one made by the last `reply` call, over the slots declared before it. */
  lemma {:induction false} PendingReplyIsLast(steps: seq<Step>)
    ensures PendingReply(steps).Some? <==> LastReply(steps).Some?
    ensures LastReply(steps).Some? ==>
      var j := LastReply(steps).value;
      PendingReply(steps) == Some(ReplyObject(steps[j].isPrivate, ParamsUsage(Declared(steps[..j])), steps[j].handler))
  {
    if |steps| > 0 {
      var init := steps[..|steps| - 1];
      PendingReplyIsLast(init);
      if !steps[|steps| - 1].SetReply? && LastReply(init).Some? {
        var j := LastReply(init).value;
        assert init[..j] == steps[..j];
      }
    }
  }

  /** Once some declaration is refused, later statements do not change the error. */
  lemma {:induction false} FirstRejectionPrefix(steps: seq<Step>, i: nat)
    requires i <= |steps|
    requires FirstRejection(steps[..i]).Some?
    ensures FirstRejection(steps) == FirstRejection(steps[..i])
    decreases |steps| - i
  {
    if i < |steps| {
      assert steps[..i + 1][..i] == steps[..i];
      FirstRejectionPrefix(steps, i + 1);
    } else {
      assert steps[..i] == steps;
    }
  }

  /** A block's declarations are all accepted exactly when they form a well-shaped slot list. */
  lemma {:induction false} FirstRejectionIff(steps: seq<Step>)
    ensures FirstRejection(steps).None? <==> WellShaped(Declared(steps))
  {
    if |steps| > 0 {
      var init := steps[..|steps| - 1];
      var s := steps[|steps| - 1];
      FirstRejectionIff(init);
      if s.Declare? {
        var ps := Declared(init);
        assert Declared(steps) == ps + [s.argument];
        if WellShaped(ps) {
          if Rejection(ps, s.argument).None? {
            DeclarationKeepsShape(ps, s.argument);
          } else if WellShaped(ps + [s.argument]) {
            RejectionGuardsShape(ps, s.argument);
          }
        } else if WellShaped(ps + [s.argument]) {
          assert (ps + [s.argument])[..|ps|] == ps;
          ShapeClosedUnderPrefix(ps + [s.argument], |ps|);
        }
      } else {
        assert Declared(steps) == Declared(init);
      }
    }
  }

  lemma ShapeClosedUnderPrefix(ps: seq<Argument>, n: nat)
    requires n <= |ps|
    requires WellShaped(ps)
    ensures WellShaped(ps[..n])
  {
  }

  /**
   * The block builds a command exactly when its declarations are well shaped and it calls
   * `reply` at least once; the command always has `requireParameters` 0, the block's slots
   * and final help, and the flag and handler of the last `reply`.
   */
  lemma ConfiguredIff(steps: seq<Step>)
    ensures Configured(steps).Ok? <==> WellShaped(Declared(steps)) && LastReply(steps).Some?
    ensures WellShaped(Declared(steps)) && LastReply(steps).None? ==> Configured(steps) == Err(NO_REPLY)
    ensures Configured(steps).Ok? ==>
      var c := Configured(steps).value;
      var j := LastReply(steps).value;
      && c.requireParameters == 0
      && c.parameters == Declared(steps)
      && c.help == FinalHelp(steps)
      && c.privateReply == steps[j].isPrivate
      && c.handler == steps[j].handler
      && c.params == ParamsUsage(Declared(steps[..j]))
  {
    FirstRejectionIff(steps);
    PendingReplyIsLast(steps);
  }

  /** A `reply` at the end of a block replaces any earlier one and renders every declared slot. */
  lemma LaterReplyWins(steps: seq<Step>, isPrivate: bool, handler: Handler)
    requires WellShaped(Declared(steps))
    ensures var r := Configured(steps + [SetReply(isPrivate, handler)]);
      && r.Ok?
      && r.value.privateReply == isPrivate
      && r.value.handler == handler
      && r.value.params == ParamsUsage(r.value.parameters)
  {
    var all := steps + [SetReply(isPrivate, handler)];
    assert all[..|all| - 1] == steps;
    assert Declared(all) == Declared(steps);
    FirstRejectionIff(all);
  }

  // ---------------------------------------------------------------- running a command

  /**
   * `runCommand(sender, args)`: the lower and upper count bounds (no upper bound with a
   * vararg), then binding and the handler; the count messages are the reply itself.
   */
  function Run(c: Command, sender: Sender, args: seq<string>): Outcome {
    var k := CountRequired(c.parameters);
    var maxParameters := k + CountOptional(c.parameters);
    if |args| < k then Said(AtLeastMessage(k, |args|))
    else if !HasVararg(c.parameters) && |args| > maxParameters then Said(AtMostMessage(maxParameters, |args|))
    else
      match Bind(c.parameters, args)
      case None => Thrown
      case Some(frame) => c.handler(sender, frame)
  }

  /** The same steps as `runCommand` takes them, with the slot-binding loop. */
  method RunCommand(c: Command, sender: Sender, args: seq<string>) returns (r: Outcome)
    ensures r == Run(c, sender, args)
  {
    var requiredParameters := CountRequired(c.parameters);
    if |args| < requiredParameters {
      return Said(AtLeastMessage(requiredParameters, |args|));
    }
    var maxParameters := requiredParameters + CountOptional(c.parameters);
    if !HasVararg(c.parameters) && |args| > maxParameters {
      return Said(AtMostMessage(maxParameters, |args|));
    }
    var frame := BindFrame(c.parameters, args);
    if frame.None? {
      return Thrown;
    }
    r := c.handler(sender, frame.value);
  }

  /** The calls that get as far as the handler. */
  predicate ReachesHandler(c: Command, args: seq<string>) {
    && CountRequired(c.parameters) <= |args|
    && (HasVararg(c.parameters) || |args| <= CountRequired(c.parameters) + CountOptional(c.parameters))
    && Bind(c.parameters, args).Some?
  }

  /**
   * For well-shaped slots the handler runs exactly with `k <= n <= k+m` tokens, or `n >= k+m`
   * with a vararg, whoever the sender is: there is no authorization step. Outside these bounds
   * the outcome depends neither on the handler nor on the sender.
   */
  lemma ReachesHandlerIff(c: Command, sender: Sender, other: Sender, args: seq<string>, handler: Handler)
    requires WellShaped(c.parameters)
    ensures ReachesHandler(c, args) <==>
      && CountRequired(c.parameters) <= |args|
      && (if HasVararg(c.parameters) then CountRequired(c.parameters) + CountOptional(c.parameters) <= |args|
          else |args| <= CountRequired(c.parameters) + CountOptional(c.parameters))
    ensures !ReachesHandler(c, args) ==>
      Run(c.(handler := handler), other, args) == Run(c, sender, args)
  {
    if CountRequired(c.parameters) <= |args| {
      BindOutcome(c.parameters, args);
    }
  }

  /** Too few tokens, or too many without a vararg, give the count message as the reply. */
  lemma RunRejections(c: Command, sender: Sender, args: seq<string>)
    ensures |args| < CountRequired(c.parameters) ==>
      Run(c, sender, args) == Said(AtLeastMessage(CountRequired(c.parameters), |args|))
    ensures (CountRequired(c.parameters) <= |args| && !HasVararg(c.parameters)
        && |args| > CountRequired(c.parameters) + CountOptional(c.parameters)) ==>
      Run(c, sender, args) == Said(AtMostMessage(CountRequired(c.parameters) + CountOptional(c.parameters), |args|))
  {
  }

  /** When the handler runs, every token is bound to exactly one slot, in order, and its outcome is the command's. */
  lemma RunPassesFrame(c: Command, sender: Sender, args: seq<string>)
    requires WellShaped(c.parameters)
    requires ReachesHandler(c, args)
    ensures var f := Bind(c.parameters, args).value;
      && Taken(f, |args|) == args
      && Run(c, sender, args) == c.handler(sender, f)
  {
    BindTakesEveryToken(c.parameters, args);
  }

  // ---------------------------------------------------------------- help

  /** The reply object's `help(name)`, over the slot list rendered when `reply` was called. */
  function Help(c: Command, name: string): string {
    HelpText(c.help, name, c.params)
  }

  /**
   * When no slot is declared after the last `reply`, the help text describes exactly the
   * slots the command binds; a slot declared later is bound but missing from the help.
   */
  lemma HelpAfterLastDeclaration(steps: seq<Step>, name: string)
    requires Configured(steps).Ok? && LastReply(steps).Some?
    requires forall i | LastReply(steps).value < i < |steps| :: !steps[i].Declare?
    ensures Help(Configured(steps).value, name) ==
      HelpText(FinalHelp(steps), name, ParamsUsage(Configured(steps).value.parameters))
  {
    var j := LastReply(steps).value;
    var c := Configured(steps).value;
    ConfiguredIff(steps);
    assert steps[j].SetReply?;
    forall i | j <= i < |steps| ensures !steps[i].Declare? {
      if i > j {
        assert LastReply(steps).value < i;
      }
    }
    DeclaredAfter(steps, j);
    assert c.params == ParamsUsage(c.parameters);
    assert c.help == FinalHelp(steps);
  }

  /** Without declarations after index `j`, the whole block declares what its first `j` steps do. */
  lemma {:induction false} DeclaredAfter(steps: seq<Step>, j: nat)
    requires j <= |steps|
    requires forall i | j <= i < |steps| :: !steps[i].Declare?
    ensures Declared(steps) == Declared(steps[..j])
    decreases |steps| - j
  {
    if j == |steps| {
      assert steps[..j] == steps;
    } else {
      var init := steps[..|steps| - 1];
      assert init[..j] == steps[..j];
      DeclaredAfter(init, j);
    }
  }
}
