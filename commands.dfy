/**
 * The data of the current command engine: the sender of a command, the response it gets,
 * and a command as the argument DSL builds it (its slots, its authorization and its reply
 * handler). The handler is a function of the sender and the binding frame of one call.
 */
module Commands {
  import opened Wrappers
  import opened Arguments

  /** Who sent a command: display name and the names of the roles they hold. */
  datatype Sender = Sender(username: string, roles: seq<string>)

  /** A reply to deliver: private or in the channel, the text, and reactions in order. */
  datatype CommandResponse = CommandResponse(privateReply: bool, reply: string, reactions: seq<string>)

  /** One run of a reply handler: the text it returned and the reactions it appended, or an exception. */
  datatype HandlerResult = Replied(reply: string, reactions: seq<string>) | Threw

  type Handler = (Sender, Frame) -> HandlerResult

  const NOT_AUTHORIZED: string := "You are not authorized to run this command."

  /** A built command; its name is the key it is registered under, not part of the value. */
  datatype Command = Command(
    privateReply: bool,
    notAuthorized: string,
    authorizedRoles: Option<seq<string>>,
    help: Option<string>,
    parameters: seq<Argument>,
    handler: Handler)
  {
    /** No role list lets everyone in; a role list lets in exactly the senders holding one of its roles. */
    function IsAuthorized(senderRoles: seq<string>): (r: bool)
      ensures r <==> authorizedRoles.None? || exists role :: role in senderRoles && role in authorizedRoles.value
    {
      authorizedRoles.None? || Intersects(senderRoles, authorizedRoles.value)
    }
  }

  /** `a.intersect(b).isNotEmpty()`. */
  function Intersects(a: seq<string>, b: seq<string>): (r: bool)
    ensures r <==> exists x :: x in a && x in b
  {
    if |a| == 0 then false
    else a[0] in b || Intersects(a[1..], b)
  }

  /** An empty role list is a lock-out, not "unrestricted": nobody is authorized. */
  lemma EmptyRoleListLocksOut(c: Command, senderRoles: seq<string>)
    requires c.authorizedRoles == Some([])
    ensures !c.IsAuthorized(senderRoles)
  {
  }
}
