# Chad's command engine, modelled in Dafny

Chad is the chat bot of the Open Redstone Engineers community. Its command engine takes a raw
chat line and does the following:

- it recognises the command character;
- it splits the rest into a name and argument tokens;
- it looks the name up and checks the sender's roles;
- it binds the tokens to the command's declared parameter slots;
- it runs the reply handler and returns a normalised response.

This project models that engine in Dafny and proves what the code promises about it. The
repository holds two generations of the engine, and both are modelled.

**Current generation** (`org.openredstone.chad`):

- `Executor` models `CommandExecutor.tryExecute`:
  - the prefix check and the name (`^\S+`);
  - the argument loop over `^\s+(?:"([^"]*)"|(\S+))`, as a method with its loop invariants;
  - the registry lookup, the failure boundary and the suppression of empty replies.
- `Dsl` models the argument DSL:
  - `CommandScope` is a class whose declaration methods update its counters and slot list;
  - `reply` builds the command;
  - `Run` and `RunCommand` give the anonymous command's `runCommand`, with authorization,
    the count checks, binding and the response.
- `Commands` holds `Sender`, `CommandResponse` and the built `Command` with `isAuthorized`.
- `Arguments` is shared by both DSL generations. It covers:
  - the slot kinds and their help rendering;
  - the declaration-order rules and the shape `Required* (Optional|Default)* Vararg?` they enforce;
  - the positional binding into a per-call frame of slot values.
- `Builtins` models the predefined commands whose replies are pure:
  - base conversion (`baseConvert`, `shortConvertCommand`, `convertCommand`);
  - `applyCommand`, `helpCommand`, `pollCommand` (a method that builds the reactions as it
    maps the options), `staticCommand` and `lmgtfy`;
  - `numberEmoji` and `parseDie`.
- `Numbers` models the JVM's `Long.parseLong`, `toIntOrNull` and `Long.toString(radix)`.
- `Text` models `split`, `joinToString` and character search.

**Older generation** (`org.openredstone.commands` and `org.openredstone.managers`):

- `LegacyDsl` is the DSL without authorization:
  - `reply` may be called anywhere and the last call wins;
  - `buildCommand` fails without a reply;
  - the count messages are the reply itself.
  - A whole configuration block is a sequence of statements (`Step`), run by `Build` and
    specified by `Configured`.
- `LegacyCommands` covers `CommandContext`, and the `Command` class whose `reply` field running
  a command overwrites, with the error, static and apply commands.
- `CommandManager` models the list registry: `addCommand`, `addStaticCommands` and
  `getAttemptedCommand`. `getAttemptedCommand` splits on single spaces, picks the first command
  matching the name and the context, and overwrites that command's reply.

`Scenarios` states the repository's own test cases as lemmas about the model. Most are
generalised over the command character, the name or the argument text.

Where the code's behaviour may surprise a reader, the model follows it:

- an unclosed `"abc` is not a parse error: the quoted alternative fails to match and the word is
  taken bare, quote included (`Executor.UnclosedQuoteIsBare`);
- authorization is checked before the count checks, so an unauthorized sender never learns the
  expected counts (`Dsl.RunRejections`);
- the usage string is rendered when `reply` is called, not lazily;
- when an Optional or Default slot precedes a Vararg and the tokens run out before the vararg's
  position, `args.subList(i, args.size)` throws. The call then ends in the generic error reply;
  the vararg is not bound to an empty list (`Arguments.BindOutcome`, `Executor.FailureBoundary`).

Both JVM snapshots have signatures that disagree with each other. Examples:

- `runCommand(replyScope, args)` in the abstract class and `runCommand(sender, args)` in the DSL;
- `isAuthorized(roles)` and `isAuthorized(sender)`;
- the older DSL passes `privateReply` to a `Command` whose constructor lacks it;
- `getAttemptedCommand` passes an array to `runCommand(List)`.

The model follows the behaviour: a handler receives the sender and the bound frame, and
sequences stand for lists and arrays.

## Model

| member | source | states |
|---|---|---|
| Text.IndexOf | src/main/kotlin/org/openredstone/chad/commands/Command.kt:44 | the index found holds the searched character (the closing quote of `"([^"]*)"`) |
| Text.IndexOfSpec | src/main/kotlin/org/openredstone/chad/commands/Command.kt:44 | the index found is the first occurrence; no index means the character does not occur |
| Text.Split | src/main/kotlin/org/openredstone/managers/CommandManager.kt:52 | `split(" ")` yields at least one part and no part contains the delimiter (empty parts kept) |
| Text.JoinSplit | src/main/kotlin/org/openredstone/managers/CommandManager.kt:52 | joining the parts of a split with the delimiter gives back the original string |
| Text.SplitJoin | src/main/kotlin/org/openredstone/managers/CommandManager.kt:52 | splitting a join of delimiter-free parts gives back exactly those parts |
| Text.Join | src/main/kotlin/org/openredstone/chad/commands/Command.kt:195 | `joinToString(separator)`; JoinSplit, SplitJoin and JoinContainsParts state its properties |
| Numbers.DigitOf | src/main/kotlin/org/openredstone/chad/commands/Command.kt:128 | a character's digit value in a radix lies in 0..radix-1, or is -1 for a non-digit |
| Numbers.Digits | src/main/kotlin/org/openredstone/chad/commands/Command.kt:128 | `toString(radix)` of a magnitude is non-empty and uses only `0-9a-z` |
| Numbers.ToStringRadix | src/main/kotlin/org/openredstone/chad/commands/Command.kt:128 | `Long.toString(radix)`: a `-` before the digits of a negative value; its meaning is SignedRoundTrip |
| Numbers.ParseSigned | src/main/kotlin/org/openredstone/chad/commands/Command.kt:128 | `toLong(radix)` / `toIntOrNull(radix)`: an optional sign, at least one digit of the radix and a value within the bounds, else no value; SignedRoundTrip and ParseDecimal state what it reads |
| Numbers.DigitsRoundTrip | src/main/kotlin/org/openredstone/chad/commands/Command.kt:128 | the printed digits of n are valid in the radix and read back as n |
| Numbers.SignedRoundTrip | src/main/kotlin/org/openredstone/chad/commands/Command.kt:128 | `toLong(radix)` of `toString(radix)` of any in-range value is that value |
| Numbers.ParseDecimal | src/main/kotlin/org/openredstone/chad/commands/Command.kt:296-297 | `toIntOrNull` of a printed decimal n is n exactly when n fits in a 32-bit int, null otherwise |
| Arguments.UsageRoundTrip | src/main/kotlin/org/openredstone/chad/commands/dsl/Dsl.kt:168-204 | the help rendering of a slot with an identifier name (`name`, `[name]`, `[name=default]`, `[name...]`) parses back to that slot |
| Arguments.OptionalRoundTrip | src/main/kotlin/org/openredstone/chad/commands/dsl/Dsl.kt:180 | `[name]` parses back to the optional slot |
| Arguments.DefaultRoundTrip | src/main/kotlin/org/openredstone/chad/commands/dsl/Dsl.kt:192 | `[name=default]` parses back to the default slot, whatever the default text |
| Arguments.VarargRoundTrip | src/main/kotlin/org/openredstone/chad/commands/dsl/Dsl.kt:204 | `[name...]` parses back to the vararg slot |
| Arguments.Usage | src/main/kotlin/org/openredstone/chad/commands/dsl/Dsl.kt:168-204 | `Argument.toString` of each slot kind; UsageRoundTrip shows the rendering determines the slot |
| Arguments.ParamsUsage | src/main/kotlin/org/openredstone/chad/commands/dsl/Dsl.kt:63 | the slot renderings joined by single spaces, as shown by HelpDescribesSlots |
| Arguments.Rejection | src/main/kotlin/org/openredstone/chad/commands/dsl/Dsl.kt:102-148 | the refusal, with its message, that each declaration function makes before appending; RejectionGuardsShape and DeclarationKeepsShape tie it to the well-shaped lists |
| Arguments.CountRequired | src/main/kotlin/org/openredstone/chad/commands/dsl/Dsl.kt:53 | `requiredParameters` never exceeds the number of slots |
| Arguments.CountOptional | src/main/kotlin/org/openredstone/chad/commands/dsl/Dsl.kt:54 | `requiredParameters + optionalParameters` never exceeds the number of slots |
| Arguments.CountsAppend | src/main/kotlin/org/openredstone/chad/commands/dsl/Dsl.kt:113-147 | appending a slot adds one to `requiredParameters` for Required, one to `optionalParameters` for Optional/Default, and sets `vararg` for Vararg |
| Arguments.VarargIsLast | src/main/kotlin/org/openredstone/chad/commands/dsl/Dsl.kt:142-148 | in a well-shaped list, a vararg is present exactly when the last slot is one |
| Arguments.DeclarationKeepsShape | src/main/kotlin/org/openredstone/chad/commands/dsl/Dsl.kt:102-148 | a declaration the order rules accept keeps the list of the shape `Required* (Optional\|Default)* Vararg?` |
| Arguments.RejectionGuardsShape | src/main/kotlin/org/openredstone/chad/commands/dsl/Dsl.kt:102-148 | a declaration that keeps the shape is never refused |
| Arguments.DeclarableIffWellShaped | src/main/kotlin/org/openredstone/chad/commands/dsl/Dsl.kt:102-148 | a list can be declared one slot at a time without an exception exactly when it has the shape `Required* (Optional\|Default)* Vararg?` |
| Arguments.ShapeLayout | src/main/kotlin/org/openredstone/chad/commands/dsl/Dsl.kt:53-56 | a well-shaped list is k Required slots, then m Optional/Default slots, then at most one Vararg, with k and m the two counters |
| Arguments.LayoutCounts | src/main/kotlin/org/openredstone/chad/commands/dsl/Dsl.kt:53-56 | a list laid out as k Required, m Optional/Default and an optional Vararg is well shaped and has exactly those counters |
| Arguments.Bind | src/main/kotlin/org/openredstone/chad/commands/dsl/Dsl.kt:80-87 | a successful binding gives one value per slot |
| Arguments.BindSlot | src/main/kotlin/org/openredstone/chad/commands/dsl/Dsl.kt:81-86 | the value one slot receives: `args[i]`, `getOrNull(i)`, `getOrNull(i) ?: default` or `subList(i, size)`, with a throw for an index out of range; BindOutcome states the result over a whole list |
| Arguments.BindFrame | src/main/kotlin/org/openredstone/chad/commands/dsl/Dsl.kt:80-87 | the binding loop over the slots computes `Bind`: Required takes `args[i]`, Optional `args[i]` or nothing, Default `args[i]` or the default, Vararg `args[i..]`, failing where `subList` throws |
| Arguments.BindOutcome | src/main/kotlin/org/openredstone/chad/commands/dsl/Dsl.kt:80-87 | for a well-shaped list with at least k tokens, binding throws exactly when there is a vararg and fewer than k+m tokens; otherwise Required slot i holds `args[i]`, a supplied Optional/Default slot its token, an unsupplied Optional slot nothing and an unsupplied Default slot its default, and the vararg every token from position k+m |
| Arguments.BindTakesEveryToken | src/main/kotlin/org/openredstone/chad/commands/dsl/Dsl.kt:80-87 | within the count bounds, the bound frame uses every token exactly once and in order |
| Arguments.HelpDescribesSlots | src/main/kotlin/org/openredstone/chad/commands/dsl/Dsl.kt:63-68 | the help text is the optional help, `Usage: ,name `, then the slot renderings joined by single spaces, and those renderings read back as the slots |
| Arguments.HelpTextSuffix | src/main/kotlin/org/openredstone/chad/commands/dsl/Dsl.kt:65-68 | the help text is the help prefix followed by the rendered parameter string |
| Arguments.HelpText | src/main/kotlin/org/openredstone/chad/commands/dsl/Dsl.kt:65-67 | `Usage: ,name params`, after the help text and a space when there is one; see HelpDescribesSlots |
| Arguments.AtLeastMessage | src/main/kotlin/org/openredstone/chad/commands/dsl/Dsl.kt:74 | `expected at least k argument(s), got n`, the reply RunRejections gives below the lower bound |
| Arguments.AtMostMessage | src/main/kotlin/org/openredstone/chad/commands/dsl/Dsl.kt:78 | `expected at most k argument(s), got n`, the reply RunRejections gives above the upper bound |
| Commands.Command.IsAuthorized | src/main/kotlin/org/openredstone/chad/commands/Command.kt:119-121 | a sender is authorized exactly when the command has no role list or the sender holds one of its roles |
| Commands.Intersects | src/main/kotlin/org/openredstone/chad/commands/Command.kt:120 | `intersect(...).isNotEmpty()` holds exactly when some role occurs in both lists |
| Commands.EmptyRoleListLocksOut | src/main/kotlin/org/openredstone/chad/commands/Command.kt:120 | an empty (non-null) role list authorizes nobody |
| Dsl.CommandScope.constructor | src/main/kotlin/org/openredstone/chad/commands/dsl/Dsl.kt:47-56 | a fresh scope holds the role list, no help text, no slots and zero counters |
| Dsl.CommandScope.DeclareRequired | src/main/kotlin/org/openredstone/chad/commands/dsl/Dsl.kt:102-115 | `required()` is refused after a vararg or directly after an Optional/Default slot, with the source's message, and otherwise appended; the counters keep describing the slot list |
| Dsl.CommandScope.DeclareOptional | src/main/kotlin/org/openredstone/chad/commands/dsl/Dsl.kt:120-126 | `optional()` is refused after a vararg and otherwise appended |
| Dsl.CommandScope.DeclareDefault | src/main/kotlin/org/openredstone/chad/commands/dsl/Dsl.kt:131-137 | `default(value)` is refused after a vararg and otherwise appended with its default |
| Dsl.CommandScope.DeclareVararg | src/main/kotlin/org/openredstone/chad/commands/dsl/Dsl.kt:142-148 | a second `vararg()` is refused; the first is appended and sets the vararg flag |
| Dsl.CommandScope.Append | src/main/kotlin/org/openredstone/chad/commands/dsl/Dsl.kt:113-114 | an accepted slot is appended and each counter moves as its kind says, keeping the list well shaped |
| Dsl.CommandScope.Declare | src/main/kotlin/org/openredstone/chad/commands/dsl/Dsl.kt:102-148 | a declaration of any kind is refused with the order-rule message or appended |
| Dsl.CommandScope.Reply | src/main/kotlin/org/openredstone/chad/commands/dsl/Dsl.kt:61-62 | `reply(isPrivate)` makes a command with the given privacy flag, the default not-authorized text, the scope's roles, help and slots, and the handler; its slots are well shaped |
| Dsl.BuildCommand | src/main/kotlin/org/openredstone/chad/commands/dsl/Dsl.kt:13-14 | a `command { ... }` block succeeds exactly when its declarations are well shaped, and then holds them with the block's roles, help, flag and handler; otherwise it fails with the message of the first refused declaration, every earlier one having been accepted |
| Dsl.RefusedPrefix | src/main/kotlin/org/openredstone/chad/commands/dsl/Dsl.kt:102-148 | a refused declaration anywhere means the declared list is not well shaped |
| Dsl.RunCommand | src/main/kotlin/org/openredstone/chad/commands/dsl/Dsl.kt:70-90 | the steps of `runCommand` compute `Run`: authorization, the at-least bound, the at-most bound when there is no vararg, then binding and the handler |
| Dsl.InvokesHandlerIff | src/main/kotlin/org/openredstone/chad/commands/dsl/Dsl.kt:71-87 | the handler runs exactly for an authorized sender with k <= n <= k+m tokens, or n >= k+m with a vararg |
| Dsl.HandlerNotRunOutsideBounds | src/main/kotlin/org/openredstone/chad/commands/dsl/Dsl.kt:71-79 | when the handler is not reached, the outcome does not depend on the handler and carries no reactions |
| Dsl.RunRejections | src/main/kotlin/org/openredstone/chad/commands/dsl/Dsl.kt:71-79 | an unauthorized sender gets the not-authorized text before any count check; then `expected at least k argument(s), got n` and `expected at most k+m argument(s), got n`, all with the command's privacy flag |
| Dsl.RunPassesFrame | src/main/kotlin/org/openredstone/chad/commands/dsl/Dsl.kt:80-96 | when the handler runs, it sees every token bound in order, and the response is its text and exactly its reactions with the command's privacy flag |
| Dsl.Run | src/main/kotlin/org/openredstone/chad/commands/dsl/Dsl.kt:70-90 | `runCommand`: authorization, then the count bounds, then binding and the handler; InvokesHandlerIff, RunRejections and RunPassesFrame state its outcomes |
| Dsl.Help | src/main/kotlin/org/openredstone/chad/commands/dsl/Dsl.kt:65-68 | the command's `help(name)` over its slots, as HelpDescribesSlots states |
| Dsl.Link | src/main/kotlin/org/openredstone/chad/commands/dsl/Dsl.kt:40 | a link wrapped in angle brackets |
| Executor.SpaceRun | src/main/kotlin/org/openredstone/chad/commands/Command.kt:44 | the leading-whitespace run `^\s+` is no longer than the text |
| Executor.SpaceRunSpec | src/main/kotlin/org/openredstone/chad/commands/Command.kt:44 | the run is all whitespace and is maximal |
| Executor.WordRun | src/main/kotlin/org/openredstone/chad/commands/Command.kt:43 | the non-whitespace run `^\S+` is no longer than the text |
| Executor.WordRunSpec | src/main/kotlin/org/openredstone/chad/commands/Command.kt:43 | the run has no whitespace and is maximal |
| Executor.NextArgument | src/main/kotlin/org/openredstone/chad/commands/Command.kt:44 | a match of the argument pattern has a positive length within the text |
| Executor.NextArgumentMatches | src/main/kotlin/org/openredstone/chad/commands/Command.kt:44 | the pattern matches exactly when whitespace is followed by something else, and a match never ends on whitespace |
| Executor.ParseLineSpec | src/main/kotlin/org/openredstone/chad/commands/Command.kt:63-74 | a parsed line has a non-empty, whitespace-free name right after the prefix, followed by whitespace or the end, with the arguments tokenized from the rest; "Invalid command" exactly when no name follows the prefix; otherwise the only failure is "Invalid argument" |
| Executor.TryExecute | src/main/kotlin/org/openredstone/chad/commands/Command.kt:57-83 | the prefix check, name, argument loop, lookup and failure boundary compute `Execute` |
| Executor.ReadArguments | src/main/kotlin/org/openredstone/chad/commands/Command.kt:66-74 | the loop that matches, appends and advances the index yields the tokens of the rest of the line, or nothing as soon as a match fails |
| Executor.ExecuteWithoutName | src/main/kotlin/org/openredstone/chad/commands/Command.kt:64 | a prefix with no name after it answers "Invalid command" |
| Executor.ExecuteWithBadArguments | src/main/kotlin/org/openredstone/chad/commands/Command.kt:69-71 | a name followed by text the pattern cannot read answers "Invalid argument" |
| Executor.ExecuteParsed | src/main/kotlin/org/openredstone/chad/commands/Command.kt:75-83 | a parsed line is answered by the command under its name, or "Invalid command" when there is none |
| Executor.NoMatchNoTokens | src/main/kotlin/org/openredstone/chad/commands/Command.kt:69 | a failed match rejects the whole argument list |
| Executor.TokensStep | src/main/kotlin/org/openredstone/chad/commands/Command.kt:69-73 | one loop step appends the matched token and moves the index past the match |
| Executor.WordRunOfWord | src/main/kotlin/org/openredstone/chad/commands/Command.kt:43 | a whitespace-free word followed by whitespace or the end is exactly the name run |
| Executor.NextArgumentOfPiece | src/main/kotlin/org/openredstone/chad/commands/Command.kt:44 | a well-written argument (whitespace, then a quoted text without quotes or a bare word) is matched as exactly that token and length |
| Executor.RenderRoundTrip | src/main/kotlin/org/openredstone/chad/commands/Command.kt:68-74 | tokenizing a line of well-written arguments gives back exactly their texts |
| Executor.TokensAreRendered | src/main/kotlin/org/openredstone/chad/commands/Command.kt:66-74 | conversely, text the argument loop accepts is whitespace gaps each followed by quoted text without quotes or a non-empty word, whose texts are the tokens read |
| Executor.Tokens | src/main/kotlin/org/openredstone/chad/commands/Command.kt:66-74 | the argument loop over the rest of the line, all or nothing; RenderRoundTrip and TokensAreRendered characterise what it accepts |
| Executor.ParseLine | src/main/kotlin/org/openredstone/chad/commands/Command.kt:63-74 | the name and the tokens of a command line, or the invalid-command / invalid-argument reply; ParseLineSpec and LineRoundTrip state it |
| Executor.Normalise | src/main/kotlin/org/openredstone/chad/commands/Command.kt:78-83 | an exception becomes the generic error reply, an empty reply becomes null; FailureBoundary states it |
| Executor.Execute | src/main/kotlin/org/openredstone/chad/commands/Command.kt:57-83 | `tryExecute`; ExecuteNoneIff, LookupAfterTokenizing and DispatchRendered state its outcomes |
| Executor.LineRoundTrip | src/main/kotlin/org/openredstone/chad/commands/Command.kt:63-74 | a line of prefix, name and well-written arguments parses to that name and those texts |
| Executor.DispatchRendered | src/main/kotlin/org/openredstone/chad/commands/Command.kt:57-83 | such a line reaches the named command with exactly the argument texts, or answers "Invalid command" for an unknown name |
| Executor.NameThenRest | src/main/kotlin/org/openredstone/chad/commands/Command.kt:64-67 | the name of `c name rest` is `name` when `rest` is empty or starts with whitespace |
| Executor.UntokenizableRejected | src/main/kotlin/org/openredstone/chad/commands/Command.kt:69-71 | a name followed by untokenizable text answers "Invalid argument" whatever the registry holds |
| Executor.TrailingSpaceRejected | src/main/kotlin/org/openredstone/chad/commands/Command.kt:44 | text ending in whitespace never tokenizes |
| Executor.GluedAfterQuoteRejected | src/main/kotlin/org/openredstone/chad/commands/Command.kt:44 | text glued to a closing quote makes the argument list invalid |
| Executor.UnclosedQuoteIsBare | src/main/kotlin/org/openredstone/chad/commands/Command.kt:44 | a quote that is never closed starts a bare word, taken quote included |
| Executor.ExecuteNoneIff | src/main/kotlin/org/openredstone/chad/commands/Command.kt:57-79 | the result is null exactly for an empty line, a wrong prefix, or a command that returns an empty reply |
| Executor.LookupAfterTokenizing | src/main/kotlin/org/openredstone/chad/commands/Command.kt:64-75 | an untokenizable line is "Invalid argument" before any lookup; an unknown name of a well-formed line is "Invalid command"; a prefix followed by whitespace or nothing is "Invalid command" |
| Executor.FailureBoundary | src/main/kotlin/org/openredstone/chad/commands/Command.kt:78-83 | an exception (in binding or in the handler) becomes the generic error reply with the command's privacy flag; a non-empty reply passes unchanged |
| Builtins.PrintedNumberIsNotAnError | src/main/kotlin/org/openredstone/chad/commands/Command.kt:128-131 | a printed number never starts with the `I` of the invalid-number reply |
| Builtins.InvalidNumber | src/main/kotlin/org/openredstone/chad/commands/Command.kt:129-130 | `Invalid number: ` and the exception message; InvalidNumberPrefix states its prefix |
| Builtins.BaseConvert | src/main/kotlin/org/openredstone/chad/commands/Command.kt:126-132 | `baseConvert`: parse in the old radix and print in the new, or the invalid-number reply; BaseConvertOutcome and BaseConvertRoundTrip state it |
| Builtins.BaseConvertOutcome | src/main/kotlin/org/openredstone/chad/commands/Command.kt:126-132 | the reply starts with `Invalid number: ` exactly when the number does not parse as a 64-bit value in the old base; otherwise it is that value printed in the new base |
| Builtins.InvalidNumberPrefix | src/main/kotlin/org/openredstone/chad/commands/Command.kt:130 | the NumberFormatException reply starts with `Invalid number: ` |
| Builtins.BaseConvertRoundTrip | src/main/kotlin/org/openredstone/chad/commands/Command.kt:126-132 | converting a printed 64-bit value gives it printed in the new base, and converting back restores the original |
| Builtins.ShortConvertCommand | src/main/kotlin/org/openredstone/chad/commands/Command.kt:134-135 | construction succeeds exactly when both bases are in 2..36, and otherwise fails with `check`'s message |
| Builtins.ShortConvertRun | src/main/kotlin/org/openredstone/chad/commands/Command.kt:134-140 | with one token the reply is its conversion; no token or more than one gets the count message |
| Builtins.Base | src/main/kotlin/org/openredstone/chad/commands/Command.kt:147-150 | an accepted base lies in 2..36 |
| Builtins.BaseOfDecimal | src/main/kotlin/org/openredstone/chad/commands/Command.kt:147-150 | every base in 2..36, written in decimal, is accepted as itself |
| Builtins.ConvertRun | src/main/kotlin/org/openredstone/chad/commands/Command.kt:142-155 | three tokens give the conversion reply, and the unsupported-base reply when either base is not a decimal number in 2..36 |
| Builtins.ConvertRoundTrip | src/main/kotlin/org/openredstone/chad/commands/Command.kt:142-155 | converting a printed value between two bases and back restores it |
| Builtins.ConvertReply | src/main/kotlin/org/openredstone/chad/commands/Command.kt:146-154 | the unsupported-base reply unless both bases read as decimal numbers in 2..36, else the conversion; ConvertRun and ConvertRoundTrip state it |
| Builtins.ApplyRun | src/main/kotlin/org/openredstone/chad/commands/Command.kt:157-167 | the apply command answers one token with the reply for that token |
| Builtins.ApplyReplyCases | src/main/kotlin/org/openredstone/chad/commands/Command.kt:161-166 | the "Specify" reply is given exactly for words other than student, builder and engineer, and the three role replies all differ |
| Builtins.ApplyReplyNonEmpty | src/main/kotlin/org/openredstone/chad/commands/Command.kt:161-166 | the apply reply is never empty, so it is never suppressed |
| Builtins.ApplyHelp | src/main/kotlin/org/openredstone/chad/commands/Command.kt:158 | the apply command's help is `Instructions to apply. Usage: ,apply arg` |
| Builtins.ApplyReply | src/main/kotlin/org/openredstone/chad/commands/Command.kt:161-166 | the reply for `student`, `builder`, `engineer` or anything else; ApplyReplyCases states it |
| Builtins.JoinContainsParts | src/main/kotlin/org/openredstone/chad/commands/Command.kt:195 | every listed name occurs in the joined listing |
| Builtins.HelpRun | src/main/kotlin/org/openredstone/chad/commands/Command.kt:191-201 | without a token the reply is `Available commands: ` followed by the registered names, each exactly once, joined by `, `; a known name gets that command's help, an unknown one `No such command available`, and more tokens the count message; all replies are private |
| Builtins.ListingNamesAll | src/main/kotlin/org/openredstone/chad/commands/Command.kt:195-199 | the listing starts with `Available commands: `, joins one part per registered command and contains every registered name |
| Builtins.HelpReply | src/main/kotlin/org/openredstone/chad/commands/Command.kt:196-200 | the help of the named command, `No such command available`, or the listing; HelpRun states it |
| Builtins.NumberEmoji | src/main/kotlin/org/openredstone/chad/commands/Command.kt:304-315 | an emoji exists exactly for 1..9; any other number is an error |
| Builtins.NumberEmojiInjective | src/main/kotlin/org/openredstone/chad/commands/Command.kt:304-315 | different numbers get different emoji |
| Builtins.PollReactions | src/main/kotlin/org/openredstone/chad/commands/Command.kt:276-278 | a poll adds one reaction per option |
| Builtins.PollLines | src/main/kotlin/org/openredstone/chad/commands/Command.kt:276-279 | a poll writes one line per option |
| Builtins.Poll | src/main/kotlin/org/openredstone/chad/commands/Command.kt:268-281 | the loop that maps the options and appends reactions produces the poll reply |
| Builtins.PollRun | src/main/kotlin/org/openredstone/chad/commands/Command.kt:265-282 | the poll command passes the first token as the question and the rest as the options |
| Builtins.PollReactionsDistinct | src/main/kotlin/org/openredstone/chad/commands/Command.kt:275-280 | with 1 to 9 options the reactions are the emoji 1..n in order, pairwise different |
| Builtins.PollReplyLines | src/main/kotlin/org/openredstone/chad/commands/Command.kt:275-280 | read line by line, the reply is `Poll: question` followed by `emoji option` for each option |
| Builtins.PollRefusals | src/main/kotlin/org/openredstone/chad/commands/Command.kt:269-274 | no option, or more than 9, gets the refusal text and no reactions |
| Builtins.PollReply | src/main/kotlin/org/openredstone/chad/commands/Command.kt:268-281 | the poll handler's reply and reactions; PollRefusals, PollReactionsDistinct and PollReplyLines state it |
| Builtins.StaticRun | src/main/kotlin/org/openredstone/chad/commands/Command.kt:287-289 | it answers a bare call with its message and refuses any argument with the at-most message |
| Builtins.LmgtfyRun | src/main/kotlin/org/openredstone/chad/commands/Command.kt:209-224 | no words give `No query provided!`; words give a link wrapped in angle brackets |
| Builtins.LmgtfyReply | src/main/kotlin/org/openredstone/chad/commands/Command.kt:211-223 | `No query provided!` or the search link over the encoded words; LmgtfyRun states it |
| Builtins.Clamp | src/main/kotlin/org/openredstone/chad/commands/Command.kt:296-297 | `coerceIn` yields a value in the range, and leaves a value already in range unchanged |
| Builtins.ParseDie | src/main/kotlin/org/openredstone/chad/commands/Command.kt:293-299 | an accepted die has 1..20 dice and 2..128 sides |
| Builtins.ParseDieOfNotation | src/main/kotlin/org/openredstone/chad/commands/Command.kt:291-299 | `NdT` gives N clamped to 1..20 and T clamped to 2..128, or null when a number does not fit in 32 bits |
| Builtins.ParseDieWithoutCount | src/main/kotlin/org/openredstone/chad/commands/Command.kt:296 | `dT` means one die |
| Builtins.ParseDieRejects | src/main/kotlin/org/openredstone/chad/commands/Command.kt:294 | text without the `d`, or with nothing after it, is not dice notation |
| Builtins.ParseDieShape | src/main/kotlin/org/openredstone/chad/commands/Command.kt:291-299 | only text matching the whole pattern `(\d*)d(\d+)` is accepted: a `d` with decimal digits (possibly none) before it and at least one after it, nothing else |
| Builtins.ParseDieOfDigits | src/main/kotlin/org/openredstone/chad/commands/Command.kt:291-299 | conversely every digit string pair `N`, `T` (leading zeros included) is read as its decimal value: `NdT` gives the clamped die when both values fit in 32 bits and null otherwise, an empty `N` meaning one die |
| LegacyCommands.ContextOf | src/main/kotlin/org/openredstone/commands/Command.kt:3-5 | `CommandContext.valueOf` accepts exactly `IRC`, `DISCORD` and `BOTH` and names the accepted constant; anything else throws |
| LegacyCommands.ContextRoundTrip | src/main/kotlin/org/openredstone/commands/Command.kt:3-5 | every context is read back from its own name |
| LegacyCommands.ContextName | src/main/kotlin/org/openredstone/commands/Command.kt:3-5 | the constant names `IRC`, `DISCORD` and `BOTH`, read back by ContextRoundTrip |
| LegacyCommands.Command.ErrorCommand | src/main/kotlin/org/openredstone/commands/Command.kt:17 | the error command has context BOTH, no name, reply `Invalid command.` and the default count and privacy |
| LegacyCommands.Command.StaticCommand | src/main/kotlin/org/openredstone/commands/Command.kt:21 | a static command holds its context, name and reply, with the defaults `requireParameters = 0` and no private reply |
| LegacyCommands.Command.ApplyCommand | src/main/kotlin/org/openredstone/commands/both/ApplyCommand.kt:6 | the apply command is `apply`, context BOTH, empty reply, one required argument |
| LegacyCommands.Command.RunCommand | src/main/kotlin/org/openredstone/commands/both/ApplyCommand.kt:7-13 | only `reply` can change: error and static commands change nothing, and the apply command sets the student, builder or "Specify" reply from `args[0]`, throwing on an empty list |
| LegacyCommands.NewStaticCommand | src/main/kotlin/org/openredstone/commands/Command.kt:21 | construction throws exactly when the context name is not a constant name, with `valueOf`'s message; otherwise the new command holds that context, name and reply |
| LegacyCommands.ApplyReplyCases | src/main/kotlin/org/openredstone/commands/both/ApplyCommand.kt:8-11 | only the first argument matters; `student` and `builder` get their own replies and every other word the "Specify" reply |
| LegacyCommands.ApplyReply | src/main/kotlin/org/openredstone/commands/both/ApplyCommand.kt:8-12 | the apply reply for `student`, `builder` or anything else; ApplyReplyCases states it |
| LegacyCommands.ReplyAfterRun | src/main/kotlin/org/openredstone/commands/both/ApplyCommand.kt:7-13 | the `reply` field after `runCommand`, as Command.RunCommand promises |
| CommandManager.ParseCommandName | src/main/kotlin/org/openredstone/managers/CommandManager.kt:69-71 | the name is the first token without its first character; an empty first token throws |
| CommandManager.DropFirst | src/main/kotlin/org/openredstone/managers/CommandManager.kt:73-79 | the tokens after the first, none for fewer than two |
| CommandManager.Select | src/main/kotlin/org/openredstone/managers/CommandManager.kt:54-58 | the first command in list order whose name matches and whose context is BOTH or the given one; none when no command matches |
| CommandManager.FirstBadContext | src/main/kotlin/org/openredstone/managers/CommandManager.kt:42-45 | the position of the first entity whose context name `valueOf` refuses, if any |
| CommandManager.FirstBadContextIsFirst | src/main/kotlin/org/openredstone/managers/CommandManager.kt:42-45 | every entity before that position has an accepted context name |
| CommandManager.Manager.constructor | src/main/kotlin/org/openredstone/managers/CommandManager.kt:16-17 | a new manager starts with an empty command list |
| CommandManager.Manager.AddCommand | src/main/kotlin/org/openredstone/managers/CommandManager.kt:37-40 | appends the command and returns the manager itself |
| CommandManager.Manager.AddStaticCommands | src/main/kotlin/org/openredstone/managers/CommandManager.kt:42-45 | appends a fresh static command per entity, in order, up to the first refused context, which throws with the commands before it kept |
| CommandManager.Manager.GetAttemptedCommand | src/main/kotlin/org/openredstone/managers/CommandManager.kt:47-67 | null exactly for an empty line or a wrong prefix; otherwise the first matching command or a fresh error command, whose reply becomes the invalid-count message when too few tokens follow and is set by running it on the other tokens otherwise; no other command changes |
| CommandManager.SplitStartsWith | src/main/kotlin/org/openredstone/managers/CommandManager.kt:52 | the first token is a prefix of the line, and it is empty exactly when the line starts with a space |
| CommandManager.TokensRebuildMessage | src/main/kotlin/org/openredstone/managers/CommandManager.kt:52-63 | prefix, name and the tokens after the first, joined by single spaces, rebuild the line |
| CommandManager.InvalidCountMessage | src/main/kotlin/org/openredstone/managers/CommandManager.kt:61 | the reply set when too few arguments were passed, as GetAttemptedCommand promises |
| LegacyDsl.Link | src/main/kotlin/org/openredstone/commands/Dsl.kt:21-24 | on Discord the link in angle brackets; on IRC the link unchanged |
| LegacyDsl.CommandScope.constructor | src/main/kotlin/org/openredstone/commands/Dsl.kt:28-39 | a fresh scope has no help, no slots, zero counters and no reply |
| LegacyDsl.CommandScope.DeclareRequired | src/main/kotlin/org/openredstone/commands/Dsl.kt:78-91 | the same order rules and messages as the current DSL for `required()` |
| LegacyDsl.CommandScope.DeclareOptional | src/main/kotlin/org/openredstone/commands/Dsl.kt:96-102 | `optional()` is refused after a vararg, appended otherwise |
| LegacyDsl.CommandScope.DeclareDefault | src/main/kotlin/org/openredstone/commands/Dsl.kt:107-113 | `default(value)` is refused after a vararg, appended otherwise |
| LegacyDsl.CommandScope.DeclareVararg | src/main/kotlin/org/openredstone/commands/Dsl.kt:118-124 | a second `vararg()` is refused |
| LegacyDsl.CommandScope.Append | src/main/kotlin/org/openredstone/commands/Dsl.kt:89-90 | an accepted slot is appended and the counters follow its kind |
| LegacyDsl.CommandScope.Declare | src/main/kotlin/org/openredstone/commands/Dsl.kt:78-124 | a declaration of any kind is refused with the order-rule message or appended |
| LegacyDsl.CommandScope.Reply | src/main/kotlin/org/openredstone/commands/Dsl.kt:44-47 | `reply` replaces the reply object, rendering the slots declared so far |
| LegacyDsl.CommandScope.Perform | src/main/kotlin/org/openredstone/commands/Dsl.kt:32-124 | one statement of the block: a declaration is refused with its order-rule message or appended, `help =` replaces the help, `reply` replaces the reply object over the slots declared so far; nothing else changes |
| LegacyDsl.CommandScope.BuildCommand | src/main/kotlin/org/openredstone/commands/Dsl.kt:126 | `buildCommand` fails with `no reply supplied` exactly when `reply` was never called, and otherwise yields the reply object with `requireParameters = 0` |
| LegacyDsl.LastReply | src/main/kotlin/org/openredstone/commands/Dsl.kt:44-46 | the index of the last `reply` call, with no later one |
| LegacyDsl.StepEffect | src/main/kotlin/org/openredstone/commands/Dsl.kt:9 | how one more statement of the block changes the declared slots, the help text, the pending reply and the first refusal |
| LegacyDsl.Build | src/main/kotlin/org/openredstone/commands/Dsl.kt:9 | running the block's statements against a fresh scope, then `buildCommand`, gives `Configured` |
| LegacyDsl.PendingReplyIsLast | src/main/kotlin/org/openredstone/commands/Dsl.kt:44-47 | the pending reply is the one made by the last `reply` call, over the slots declared before it |
| LegacyDsl.FirstRejectionPrefix | src/main/kotlin/org/openredstone/commands/Dsl.kt:78-124 | once a declaration is refused, later statements do not change the error |
| LegacyDsl.FirstRejectionIff | src/main/kotlin/org/openredstone/commands/Dsl.kt:78-124 | no declaration is refused exactly when the declared list is well shaped |
| LegacyDsl.ConfiguredIff | src/main/kotlin/org/openredstone/commands/Dsl.kt:44-46 | the block yields a command exactly when its slots are well shaped and it called `reply`, otherwise `no reply supplied` or the refusal; the command has `requireParameters = 0`, the block's slots and final help, and the last reply's flag and handler |
| LegacyDsl.LaterReplyWins | src/main/kotlin/org/openredstone/commands/Dsl.kt:44-47 | a `reply` at the end replaces any earlier one and renders every declared slot |
| LegacyDsl.Configured | src/main/kotlin/org/openredstone/commands/Dsl.kt:9 | `command(configure)` over the block's statements; ConfiguredIff, FirstRejectionIff and LaterReplyWins state it |
| LegacyDsl.RunCommand | src/main/kotlin/org/openredstone/commands/Dsl.kt:54-71 | the steps of `runCommand` compute `Run`: the bounds, then binding and the handler |
| LegacyDsl.ReachesHandlerIff | src/main/kotlin/org/openredstone/commands/Dsl.kt:54-69 | the handler runs exactly for k <= n <= k+m tokens, or n >= k+m with a vararg, whoever sends; outside that the outcome depends neither on the handler nor on the sender |
| LegacyDsl.RunRejections | src/main/kotlin/org/openredstone/commands/Dsl.kt:55-61 | the count messages are the reply text itself |
| LegacyDsl.RunPassesFrame | src/main/kotlin/org/openredstone/commands/Dsl.kt:62-70 | when the handler runs, every token is bound once and in order, and its outcome is the command's |
| LegacyDsl.Run | src/main/kotlin/org/openredstone/commands/Dsl.kt:54-71 | `runCommand`: the count bounds, then binding and the handler; ReachesHandlerIff, RunRejections and RunPassesFrame state its outcomes |
| LegacyDsl.HelpAfterLastDeclaration | src/main/kotlin/org/openredstone/commands/Dsl.kt:47-52 | when no slot is declared after the last `reply`, the help text describes exactly the slots the command binds |
| LegacyDsl.Help | src/main/kotlin/org/openredstone/commands/Dsl.kt:49-52 | the reply object's `help(name)` over the slots rendered when `reply` was called, as HelpAfterLastDeclaration states |
| Scenarios.IdRun | src/test/kotlin/SomeTests.kt:86-91 | the joining command binds every token to its vararg and answers them joined by `, ` |
| Scenarios.IdAnswersJoinedArguments | src/test/kotlin/SomeTests.kt:95-98 | with any prefix character (a space included), a line of well-written arguments to the joining command answers their joined texts |
| Scenarios.QuotedArgumentKeepsSpaces | src/test/kotlin/SomeTests.kt:100-103 | ` id "ban capo ?" yes yes` answers `ban capo ?, yes, yes`, for any quoted text and bare word |
| Scenarios.GluedQuoteIsInvalidArgument | src/test/kotlin/SomeTests.kt:105-109 | ` id """` answers `Invalid argument` |
| Scenarios.ThrowingHandlerGivesErrorReply | src/test/kotlin/SomeTests.kt:67-79 | `.rip` answers the generic error reply |
| Scenarios.EmptyRoleListAnswersNotAuthorized | src/test/kotlin/SomeTests.kt:61-64 | `,authorized` answers the not-authorized text, whoever sends it |
| Scenarios.ApplyAnswersByRole | src/test/kotlin/SomeTests.kt:41-54 | `,apply word` answers the apply reply for that word |
| Scenarios.OptionalSlot | src/test/kotlin/Dsl.kt:39-47 | the optional command answers its token, or `42` without one |
| Scenarios.DefaultSlot | src/test/kotlin/Dsl.kt:49-57 | the default slot binds its token, or `42` without one |
| Scenarios.VarargTakesTheRest | src/test/kotlin/Dsl.kt:59-67 | `lol 1 2 3` binds `lol` to the required slot and `1 2 3`, in order, to the vararg; `lol` alone leaves the vararg empty |

## Left out

- Command history: the insert after a command has run (src/main/kotlin/org/openredstone/chad/commands/Command.kt:84-105) and both `Sql.kt` files are database I/O.
- Logging in `tryExecute` is not modelled; it has no effect on the response.
- Handler side effects are not modelled. A reply handler is a total function of the sender and the bound frame that either replies (text and reactions in order) or throws. Side effects beyond the reactions list are not represented.
- The Discord message and coroutine scope passed to the reply scope are not modelled; they only serve I/O commands.
- `ReplyScope`'s `Subcommand` invocation is not part of this model. Such a subcommand runs another command's `runCommand` with the same sender, which a handler calling `Dsl.Run` expresses.
- Commands that call Discord, HTTP or the database are not modelled: `uuidCommand`, `issueCommand`, `deleteCommand`, `piklCommand`, `trustCommand`, `historyCommand` and the fractal command.
- Commands that depend on randomness are not modelled: `rngCommand`, the dice rolls and the d6 pick of `rollCommand`, `insultCommand`, and the older `RollCommand`/`DiscordCommand`. Only the dice-notation parser `parseDie` is modelled.
- Builtins.LmgtfyRun: the URL encoder (`URLEncoder.encode`) is a parameter. For a non-empty query the lemma states only that the reply is a link in angle brackets, not the encoded text.
- Builtins.HelpRun: the help command's lazily cached name-to-help map and its name listing are computed on each call. The iteration order of the registry map is a parameter (`order`), required to list every key exactly once. The lemma states the listing as the join of `order`, but not which order the map iterates in. Later changes to the registry are not visible to the source's cached values and are not modelled.
- Fractal rendering (floating point and SHA-256) is not modelled.
- Process startup, configuration watching, the concurrent registry with its in-place reload, and the add/remove commands are not modelled. They are bound up with the Discord API and the database; concurrency and atomic replacement are outside a sequential model.
- Listeners, notification managers, the IRC/Discord embed commands and the utility helpers are not modelled; they are event plumbing and I/O.
- Configuration and entity classes hold no behaviour. A static command entity is modelled as `CommandManager.CommandEntity` (context name, command name, reply).
- `src/main/kotlin/org/openredstone/commands/StaticCommand.kt` is not part of this model. It is a no-op duplicate of `StaticCommand` in `commands/Command.kt`, which is the one modelled.
- The older generation's `Sender` and `Service` are not part of this model's sources. Their shape (a service, DISCORD or IRC, and the sender's name and roles) is inferred from their uses in `commands/Dsl.kt`.
- Numbers.DigitOf: only ASCII digits and letters are digits. `Character.digit` also accepts other Unicode digits, which `toLong`/`toIntOrNull` would then read.
- Builtins.InvalidNumber: the NumberFormatException message is Java 8's `For input string: "..."` (the build targets Java 8). Later JVMs add the radix to the message.
- Strings are sequences of Dafny characters, not UTF-16 code units. The emoji of `numberEmoji` are written as their three code points, and surrogate pairs are not modelled.
- Dsl.CommandScope.Reply: the built command takes the scope's help text and slots when `reply` is called. In the source, the anonymous command reads them from the scope on every call, which differs only when a block declares slots or sets `help` after calling `reply`.
- The `lmgtfy` test expects an `lmgtfy.com` URL, but the code builds `<https://letmegoogleforyou.com/?q=...>`. The model follows the code.
- The comment of the ` id """` test speaks of an unclosed quote. The input is an empty quoted token with a quote glued after it, which is why it is rejected (`Scenarios.GluedQuoteIsInvalidArgument`).
