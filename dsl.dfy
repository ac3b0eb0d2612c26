/**
 * The current argument DSL: a `CommandScope` collects slot declarations (rejecting those that
 * break the order Required, Optional/Default, Vararg), `reply` freezes them into a Command, and
 * running a command checks authorization, then the argument count, binds the tokens to the
 * slots and calls the handler.
 */
module Dsl {
  import opened Wrappers
  import opened Text
  import opened Numbers
  import opened Arguments
  import opened Commands

  /** The receiver of a `command(authorizedRoles) { ... }` block. */
  class CommandScope {
    const authorizedRoles: Option<seq<string>>
    var help: Option<string>
    var requiredParameters: nat
    var optionalParameters: nat
    var vararg: bool
    var parameters: seq<Argument>

    /** The counters describe the slot list, and the slot list has the declared-order shape. */
    ghost predicate Valid()
      reads this
    {
      && requiredParameters == CountRequired(parameters)
      && optionalParameters == CountOptional(parameters)
      && vararg == HasVararg(parameters)
      && WellShaped(parameters)
    }

    constructor(authorizedRoles: Option<seq<string>>)
      ensures Valid()
      ensures this.authorizedRoles == authorizedRoles && help == None && parameters == []
    {
      this.authorizedRoles := authorizedRoles;
      help := None;
      requiredParameters, optionalParameters, vararg := 0, 0, false;
      parameters := [];
    }

    /** `required()`: refused after a vararg or right after an optional or default slot. */
    method DeclareRequired(name: string) returns (rejected: Option<string>)
      requires Valid()
      modifies this
      ensures Valid() && help == old(help)
      ensures rejected == Rejection(old(parameters), Required(name))
      ensures parameters == if rejected.None? then old(parameters) + [Required(name)] else old(parameters)
    {
      if vararg {
        return Some(REQUIRED_AFTER_VARARG);
      }
      if |parameters| > 0 && parameters[|parameters| - 1].Optional? {
        return Some(REQUIRED_AFTER_OPTIONAL);
      }
      if |parameters| > 0 && parameters[|parameters| - 1].Default? {
        return Some(REQUIRED_AFTER_DEFAULT);
      }
      Append(Required(name));
      requiredParameters := requiredParameters + 1;
      rejected := None;
    }

    /** `optional()`: refused after a vararg. */
    method DeclareOptional(name: string) returns (rejected: Option<string>)
      requires Valid()
      modifies this
      ensures Valid() && help == old(help)
      ensures rejected == Rejection(old(parameters), Optional(name))
      ensures parameters == if rejected.None? then old(parameters) + [Optional(name)] else old(parameters)
    {
      if vararg {
        return Some(OPTIONAL_AFTER_VARARG);
      }
      Append(Optional(name));
      optionalParameters := optionalParameters + 1;
      rejected := None;
    }

    /** `default(value)`: refused after a vararg. */
    method DeclareDefault(name: string, value: string) returns (rejected: Option<string>)
      requires Valid()
      modifies this
      ensures Valid() && help == old(help)
      ensures rejected == Rejection(old(parameters), Default(name, value))
      ensures parameters == if rejected.None? then old(parameters) + [Default(name, value)] else old(parameters)
    {
      if vararg {
        return Some(DEFAULT_AFTER_VARARG);
      }
      Append(Default(name, value));
      optionalParameters := optionalParameters + 1;
      rejected := None;
    }

    /** `vararg()`: refused after another vararg. */
    method DeclareVararg(name: string) returns (rejected: Option<string>)
      requires Valid()
      modifies this
      ensures Valid() && help == old(help)
      ensures rejected == Rejection(old(parameters), Vararg(name))
      ensures parameters == if rejected.None? then old(parameters) + [Vararg(name)] else old(parameters)
    {
      if vararg {
        return Some(VARARG_AFTER_VARARG);
      }
      Append(Vararg(name));
      vararg := true;
      rejected := None;
    }

    /** `parameters.add(it)` once the checks passed; the caller then bumps the matching counter. */
    method Append(a: Argument)
      requires Valid() && Rejection(parameters, a).None?
      modifies this`parameters
      ensures parameters == old(parameters) + [a]
      ensures CountRequired(parameters) == requiredParameters + (if a.Required? then 1 else 0)
      ensures CountOptional(parameters) == optionalParameters + (if a.Optional? || a.Default? then 1 else 0)
      ensures HasVararg(parameters) == (vararg || a.Vararg?)
      ensures WellShaped(parameters)
    {
      CountsAppend(parameters, a);
      DeclarationKeepsShape(parameters, a);
      parameters := parameters + [a];
    }

    /** One declaration of either kind. */
    method Declare(a: Argument) returns (rejected: Option<string>)
      requires Valid()
      modifies this
      ensures Valid() && help == old(help)
      ensures rejected == Rejection(old(parameters), a)
      ensures parameters == if rejected.None? then old(parameters) + [a] else old(parameters)
    {
      match a
      case Required(n) => rejected := DeclareRequired(n);
      case Optional(n) => rejected := DeclareOptional(n);
      case Default(n, d) => rejected := DeclareDefault(n, d);
      case Vararg(n) => rejected := DeclareVararg(n);
    }

    /** `reply(isPrivate) { ... }`: the command over the slots declared so far. */
    method Reply(isPrivate: bool, handler: Handler) returns (c: Command)
      requires Valid()
      ensures c.privateReply == isPrivate && c.notAuthorized == NOT_AUTHORIZED
      ensures c.authorizedRoles == authorizedRoles && c.help == help
      ensures c.parameters == parameters && c.handler == handler
      ensures WellShaped(c.parameters)
    {
      c := Command(isPrivate, NOT_AUTHORIZED, authorizedRoles, help, parameters, handler);
    }
  }

  /**
   * A `command(authorizedRoles) { help = ...; val x by ...; ...; reply(isPrivate) { ... } }`
   * block: the declarations are made in order, and the first one refused aborts the block
   * with its exception message. Only well-shaped slot lists get through.
   */
  method BuildCommand(
    authorizedRoles: Option<seq<string>>, help: Option<string>, declarations: seq<Argument>,
    isPrivate: bool, handler: Handler)
    returns (r: Result<Command, string>)
    ensures r.Ok? <==> WellShaped(declarations)
    ensures r.Ok? ==>
      && r.value.parameters == declarations && r.value.help == help
      && r.value.authorizedRoles == authorizedRoles && r.value.privateReply == isPrivate
      && r.value.notAuthorized == NOT_AUTHORIZED && r.value.handler == handler
    ensures r.Err? ==> exists i | 0 <= i < |declarations| ::
      && Rejection(declarations[..i], declarations[i]) == Some(r.error)
      && forall j | 0 <= j < i :: Rejection(declarations[..j], declarations[j]).None?
  {
    var scope := new CommandScope(authorizedRoles);
    scope.help := help;
    var i := 0;
    while i < |declarations|
      invariant 0 <= i <= |declarations|
      invariant scope.Valid() && scope.help == help && scope.authorizedRoles == authorizedRoles
      invariant scope.parameters == declarations[..i]
      invariant forall j | 0 <= j < i :: Rejection(declarations[..j], declarations[j]).None?
    {
      var rejected := scope.Declare(declarations[i]);
      if rejected.Some? {
        RefusedPrefix(declarations, i);
        assert Rejection(declarations[..i], declarations[i]) == Some(rejected.value);
        return Err(rejected.value);
      }
      assert Rejection(declarations[..i], declarations[i]).None?;
      assert declarations[..i + 1] == declarations[..i] + [declarations[i]];
      i := i + 1;
    }
    assert declarations[..i] == declarations;
    var c := scope.Reply(isPrivate, handler);
    r := Ok(c);
  }

  /** A declaration refused at position `i` means the whole list is not well shaped. */
  lemma RefusedPrefix(ds: seq<Argument>, i: nat)
    requires i < |ds| && Rejection(ds[..i], ds[i]).Some?
    ensures !WellShaped(ds)
  {
    DeclarableIffWellShaped(ds);
  }

  // ---------------------------------------------------------------- running a command

  /** A call either returns a response or throws (out of the binding or out of the handler). */
  datatype RunOutcome = Returned(response: CommandResponse) | Thrown

  function Respond(c: Command, h: HandlerResult): RunOutcome {
    match h
    case Replied(text, reactions) => Returned(CommandResponse(c.privateReply, text, reactions))
    case Threw => Thrown
  }

  /**
   * `runCommand(sender, args)`: authorization first, then the lower and upper count bounds
   * (no upper bound with a vararg), then binding and the handler.
   */
  function Run(c: Command, sender: Sender, args: seq<string>): RunOutcome {
    var k := CountRequired(c.parameters);
    var maxParameters := k + CountOptional(c.parameters);
    if !c.IsAuthorized(sender.roles) then
      Returned(CommandResponse(c.privateReply, c.notAuthorized, []))
    else if |args| < k then
      Returned(CommandResponse(c.privateReply, AtLeastMessage(k, |args|), []))
    else if !HasVararg(c.parameters) && |args| > maxParameters then
      Returned(CommandResponse(c.privateReply, AtMostMessage(maxParameters, |args|), []))
    else
      match Bind(c.parameters, args)
      case None => Thrown
      case Some(frame) => Respond(c, c.handler(sender, frame))
  }

  /** The same steps as `runCommand` takes them, with the slot-binding loop. */
  method RunCommand(c: Command, sender: Sender, args: seq<string>) returns (r: RunOutcome)
    ensures r == Run(c, sender, args)
  {
    if !c.IsAuthorized(sender.roles) {
      return Returned(CommandResponse(c.privateReply, c.notAuthorized, []));
    }
    var requiredParameters := CountRequired(c.parameters);
    if |args| < requiredParameters {
      return Returned(CommandResponse(c.privateReply, AtLeastMessage(requiredParameters, |args|), []));
    }
    var maxParameters := requiredParameters + CountOptional(c.parameters);
    if !HasVararg(c.parameters) && |args| > maxParameters {
      return Returned(CommandResponse(c.privateReply, AtMostMessage(maxParameters, |args|), []));
    }
    var frame := BindFrame(c.parameters, args);
    match frame {
      case None => r := Thrown;
      case Some(f) =>
        var result := c.handler(sender, f);
        match result {
          case Replied(text, reactions) => r := Returned(CommandResponse(c.privateReply, text, reactions));
          case Threw => r := Thrown;
        }
    }
  }

  /** The calls that get as far as the handler. */
  predicate InvokesHandler(c: Command, sender: Sender, args: seq<string>) {
    && c.IsAuthorized(sender.roles)
    && CountRequired(c.parameters) <= |args|
    && (HasVararg(c.parameters) || |args| <= CountRequired(c.parameters) + CountOptional(c.parameters))
    && Bind(c.parameters, args).Some?
  }

  /**
   * For a command built by the DSL, the handler runs exactly for authorized senders with
   * `k <= n <= k+m` tokens, or with `n >= k+m` tokens when there is a vararg (`k` Required,
   * `m` Optional/Default slots); with a vararg and `k <= n < k+m` the binding throws.
   */
  lemma InvokesHandlerIff(c: Command, sender: Sender, args: seq<string>)
    requires WellShaped(c.parameters)
    ensures InvokesHandler(c, sender, args) <==>
      && c.IsAuthorized(sender.roles)
      && CountRequired(c.parameters) <= |args|
      && (if HasVararg(c.parameters) then CountRequired(c.parameters) + CountOptional(c.parameters) <= |args|
          else |args| <= CountRequired(c.parameters) + CountOptional(c.parameters))
  {
    if CountRequired(c.parameters) <= |args| {
      BindOutcome(c.parameters, args);
    }
  }

  /** When the handler is not reached, the outcome does not depend on the handler at all. */
  lemma HandlerNotRunOutsideBounds(c: Command, sender: Sender, args: seq<string>, other: Handler)
    requires !InvokesHandler(c, sender, args)
    ensures Run(c.(handler := other), sender, args) == Run(c, sender, args)
    ensures Run(c, sender, args).Returned? ==> Run(c, sender, args).response.reactions == []
  {
  }

  /**
   * The checks come in a fixed order: an unauthorized sender gets the command's not-authorized
   * text whatever the arguments; an authorized one with too few or too many tokens gets the
   * bound message; all these replies carry the command's privacy flag and no reactions.
   */
  lemma RunRejections(c: Command, sender: Sender, args: seq<string>)
    ensures !c.IsAuthorized(sender.roles) ==>
      Run(c, sender, args) == Returned(CommandResponse(c.privateReply, c.notAuthorized, []))
    ensures c.IsAuthorized(sender.roles) && |args| < CountRequired(c.parameters) ==>
      Run(c, sender, args) == Returned(CommandResponse(c.privateReply, AtLeastMessage(CountRequired(c.parameters), |args|), []))
    ensures (c.IsAuthorized(sender.roles) && CountRequired(c.parameters) <= |args| && !HasVararg(c.parameters)
        && |args| > CountRequired(c.parameters) + CountOptional(c.parameters)) ==>
      Run(c, sender, args) == Returned(CommandResponse(c.privateReply,
        AtMostMessage(CountRequired(c.parameters) + CountOptional(c.parameters), |args|), []))
  {
  }

  /**
   * When the handler runs it sees a frame in which every token is bound to exactly one slot in
   * order, and the response carries the command's privacy flag with the handler's own text and
   * exactly the reactions it appended.
   */
  lemma RunPassesFrame(c: Command, sender: Sender, args: seq<string>)
    requires WellShaped(c.parameters)
    requires InvokesHandler(c, sender, args)
    ensures var f := Bind(c.parameters, args).value;
      && Taken(f, |args|) == args
      && Run(c, sender, args) == Respond(c, c.handler(sender, f))
      && (c.handler(sender, f).Replied? ==>
            Run(c, sender, args) == Returned(CommandResponse(c.privateReply, c.handler(sender, f).reply, c.handler(sender, f).reactions)))
  {
    BindTakesEveryToken(c.parameters, args);
  }

  // ---------------------------------------------------------------- help and links

  /** The anonymous command's `help(name)`. */
  function Help(c: Command, name: string): string {
    HelpText(c.help, name, ParamsUsage(c.parameters))
  }

  /** `ReplyScope.link`: a link wrapped in angle brackets, which suppresses the embed. */
  function Link(link: string): string {
    "<" + link + ">"
  }
}
