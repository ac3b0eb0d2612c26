/**
 * The current executor: a chat line that starts with the command character is split into a
 * command name and argument tokens, the name is looked up, the command is run, and its
 * response is normalised (exceptions become a generic error reply, empty replies become no
 * response at all).
 *
 * Arguments follow the regular expression `^\s+(?:"([^"]*)"|(\S+))` applied repeatedly to the
 * rest of the line: every token needs leading whitespace, a quoted token is tried first, and an
 * unclosed quote falls through to the bare form.
 */
module Executor {
  import opened Wrappers
  import opened Text
  import opened Arguments
  import opened Commands
  import opened Dsl

  const INVALID_COMMAND: CommandResponse := CommandResponse(false, "Invalid command", [])
  const INVALID_ARGUMENT: CommandResponse := CommandResponse(false, "Invalid argument", [])
  const ERROR_REPLY: string := "An error occurred while running the command."

  /** The length of the whitespace run `s` starts with. */
  function SpaceRun(s: string): (k: nat)
    ensures k <= |s|
  {
    if |s| == 0 || !IsSpace(s[0]) then 0 else 1 + SpaceRun(s[1..])
  }

  /** The whitespace run is whitespace and stops at the first other character. */
  lemma {:induction false} SpaceRunSpec(s: string)
    ensures forall i | 0 <= i < SpaceRun(s) :: IsSpace(s[i])
    ensures SpaceRun(s) < |s| ==> !IsSpace(s[SpaceRun(s)])
  {
    if |s| > 0 && IsSpace(s[0]) {
      SpaceRunSpec(s[1..]);
      forall i | 1 <= i < SpaceRun(s) ensures IsSpace(s[i]) {
        assert s[i] == s[1..][i - 1];
      }
    }
  }

  /** The length of the non-whitespace run `s` starts with (what `\S+` takes, when it matches). */
  function WordRun(s: string): (k: nat)
    ensures k <= |s|
  {
    if |s| == 0 || IsSpace(s[0]) then 0 else 1 + WordRun(s[1..])
  }

  /** The non-whitespace run holds no whitespace and stops at the first whitespace character. */
  lemma {:induction false} WordRunSpec(s: string)
    ensures NoSpace(s[..WordRun(s)])
    ensures WordRun(s) < |s| ==> IsSpace(s[WordRun(s)])
  {
    if |s| > 0 && !IsSpace(s[0]) {
      WordRunSpec(s[1..]);
      var k := WordRun(s);
      assert s[..k] == [s[0]] + s[1..][..k - 1];
    }
  }

  /** One match of the argument pattern: the captured token and how much of the line it used. */
  datatype Lexeme = Lexeme(token: string, length: nat)

  /**
   * The argument pattern matched at the start of `rest`: after the whitespace run, `"..."`
   * up to the next quote when there is one, else the non-whitespace run. There is no match when
   * `rest` does not start with whitespace or is whitespace only.
   */
  function NextArgument(rest: string): (r: Option<Lexeme>)
    ensures r.Some? ==> 0 < r.value.length <= |rest|
  {
    var w := SpaceRun(rest);
    if w == 0 || w == |rest| then None
    else if rest[w] == '"' && IndexOf(rest[w + 1..], '"').Some? then
      var k := IndexOf(rest[w + 1..], '"').value;
      Some(Lexeme(rest[w + 1..w + 1 + k], w + k + 2))
    else
      var b := WordRun(rest[w..]);
      Some(Lexeme(rest[w..w + b], w + b))
  }

  /**
   * The pattern matches exactly when the text starts with whitespace that is followed by
   * something, and a match never ends in whitespace.
   */
  lemma NextArgumentMatches(rest: string)
    ensures NextArgument(rest).Some? <==> 0 < SpaceRun(rest) < |rest|
    ensures NextArgument(rest).Some? ==> !IsSpace(rest[NextArgument(rest).value.length - 1])
  {
    var w := SpaceRun(rest);
    if 0 < w < |rest| {
      if rest[w] == '"' && IndexOf(rest[w + 1..], '"').Some? {
        QuotedMatchEnd(rest);
      } else {
        BareMatchEnd(rest);
      }
    }
  }

  /** A quoted match ends on its closing quote. */
  lemma QuotedMatchEnd(rest: string)
    requires 0 < SpaceRun(rest) < |rest|
    requires rest[SpaceRun(rest)] == '"' && IndexOf(rest[SpaceRun(rest) + 1..], '"').Some?
    ensures rest[NextArgument(rest).value.length - 1] == '"'
  {
    var w := SpaceRun(rest);
    var k := IndexOf(rest[w + 1..], '"').value;
    assert rest[w + 1 + k] == rest[w + 1..][k];
  }

  /** A bare match ends on the last character of its non-whitespace run. */
  lemma BareMatchEnd(rest: string)
    requires 0 < SpaceRun(rest) < |rest|
    requires !(rest[SpaceRun(rest)] == '"' && IndexOf(rest[SpaceRun(rest) + 1..], '"').Some?)
    ensures !IsSpace(rest[NextArgument(rest).value.length - 1])
  {
    var w := SpaceRun(rest);
    SpaceRunSpec(rest);
    var b := WordRun(rest[w..]);
    WordRunSpec(rest[w..]);
    assert b > 0;
    assert rest[w + b - 1] == rest[w..][..b][b - 1];
  }

  /** The tokens of the text after the command name, or None ("Invalid argument"): all or nothing. */
  function Tokens(rest: string): Option<seq<string>>
    decreases |rest|
  {
    if |rest| == 0 then Some([])
    else match NextArgument(rest)
      case None => None
      case Some(x) =>
        match Tokens(rest[x.length..])
        case None => None
        case Some(ts) => Some([x.token] + ts)
  }

  /** The outcome of parsing a line that starts with the command character. */
  datatype Parsed = Parsed(name: string, args: seq<string>)

  /**
   * Name and arguments of a line whose first character is the command character. The name is
   * the non-whitespace run right after it; a missing name is "Invalid command", unparsable
   * arguments are "Invalid argument".
   */
  function ParseLine(message: string): (r: Result<Parsed, CommandResponse>)
    requires |message| >= 1
  {
    var n := WordRun(message[1..]);
    if n == 0 then Err(INVALID_COMMAND)
    else match Tokens(message[1 + n..])
      case None => Err(INVALID_ARGUMENT)
      case Some(args) => Ok(Parsed(message[1..1 + n], args))
  }

  /**
   * A parsed line has a nonempty whitespace-free name right after the command character,
   * followed by whitespace or the end and then by the text its arguments were read from; the
   * line fails with "Invalid command" exactly when no name follows the command character, and
   * otherwise only with "Invalid argument".
   */
  lemma ParseLineSpec(message: string)
    requires |message| >= 1
    ensures var r := ParseLine(message);
      && (r.Ok? ==>
        && 0 < |r.value.name| && StartsWith(message[1..], r.value.name) && NoSpace(r.value.name)
        && (1 + |r.value.name| < |message| ==> IsSpace(message[1 + |r.value.name|]))
        && Tokens(message[1 + |r.value.name|..]) == Some(r.value.args))
      && (r == Err(INVALID_COMMAND) <==> |message| == 1 || IsSpace(message[1]))
      && (r.Err? ==> r == Err(INVALID_COMMAND) || r == Err(INVALID_ARGUMENT))
  {
    WordRunSpec(message[1..]);
  }

  /** What the executor makes of a command's outcome: exceptions become the error reply, empty replies nothing. */
  function Normalise(c: Command, outcome: RunOutcome): Option<CommandResponse> {
    match outcome
    case Thrown => Some(CommandResponse(c.privateReply, ERROR_REPLY, []))
    case Returned(response) => if |response.reply| > 0 then Some(response) else None
  }

  /** `tryExecute`: None is the source's `null` (not a command line, or an empty reply). */
  function Execute(commandChar: char, commands: map<string, Command>, sender: Sender, message: string): Option<CommandResponse> {
    if |message| == 0 || message[0] != commandChar then None
    else match ParseLine(message)
      case Err(response) => Some(response)
      case Ok(Parsed(name, args)) =>
        if name !in commands then Some(INVALID_COMMAND)
        else Normalise(commands[name], Run(commands[name], sender, args))
  }

  /** Prepends the tokens read so far to the outcome of reading the rest. */
  function Prefixed(done: seq<string>, r: Option<seq<string>>): Option<seq<string>> {
    match r
    case None => None
    case Some(ts) => Some(done + ts)
  }

  /** `tryExecute` step by step: the prefix, the name, the argument loop, lookup and the failure boundary. */
  method TryExecute(commandChar: char, commands: map<string, Command>, sender: Sender, message: string)
    returns (r: Option<CommandResponse>)
    ensures r == Execute(commandChar, commands, sender, message)
  {
    if |message| == 0 || message[0] != commandChar {
      return None;
    }
    var nameLength := WordRun(message[1..]);
    if nameLength == 0 {
      ExecuteWithoutName(commandChar, commands, sender, message);
      return Some(INVALID_COMMAND);
    }
    var name := message[1..1 + nameLength];
    var args := ReadArguments(message, 1 + nameLength);
    if args.None? {
      ExecuteWithBadArguments(commandChar, commands, sender, message);
      return Some(INVALID_ARGUMENT);
    }
    ExecuteParsed(commandChar, commands, sender, message, args.value);
    if name !in commands {
      return Some(INVALID_COMMAND);
    }
    var command := commands[name];
    var outcome := RunCommand(command, sender, args.value);
    match outcome {
      case Thrown => r := Some(CommandResponse(command.privateReply, ERROR_REPLY, []));
      case Returned(response) => r := if |response.reply| > 0 then Some(response) else None;
    }
  }

  /** A command character with no name after it is an invalid command. */
  lemma ExecuteWithoutName(commandChar: char, commands: map<string, Command>, sender: Sender, message: string)
    requires |message| > 0 && message[0] == commandChar && WordRun(message[1..]) == 0
    ensures Execute(commandChar, commands, sender, message) == Some(INVALID_COMMAND)
  {
  }

  /** A name followed by text the argument pattern cannot read is an invalid argument. */
  lemma ExecuteWithBadArguments(commandChar: char, commands: map<string, Command>, sender: Sender, message: string)
    requires |message| > 0 && message[0] == commandChar
    requires WordRun(message[1..]) > 0 && Tokens(message[1 + WordRun(message[1..])..]).None?
    ensures Execute(commandChar, commands, sender, message) == Some(INVALID_ARGUMENT)
  {
  }

  /** A line read as a name and tokens is answered by looking the name up and running the command. */
  lemma ExecuteParsed(commandChar: char, commands: map<string, Command>, sender: Sender, message: string, args: seq<string>)
    requires |message| > 0 && message[0] == commandChar
    requires WordRun(message[1..]) > 0 && Tokens(message[1 + WordRun(message[1..])..]) == Some(args)
    ensures var name := message[1..1 + WordRun(message[1..])];
      Execute(commandChar, commands, sender, message) ==
        if name !in commands then Some(INVALID_COMMAND) else Normalise(commands[name], Run(commands[name], sender, args))
  {
  }

  /**
   * The argument loop of `tryExecute`: from `index`, match the argument pattern, append its
   * token and advance past the match, until the line is used up; a failed match abandons the
   * tokens read so far.
   */
  method ReadArguments(message: string, start: nat) returns (r: Option<seq<string>>)
    requires start <= |message|
    ensures r == Tokens(message[start..])
  {
    var index := start;
    var args: seq<string> := [];
    assert Prefixed([], Tokens(message[index..])) == Tokens(message[index..]) by {
      var all := Tokens(message[index..]);
      assert all.Some? ==> [] + all.value == all.value;
    }
    while index < |message|
      invariant start <= index <= |message|
      invariant Tokens(message[start..]) == Prefixed(args, Tokens(message[index..]))
      decreases |message| - index
    {
      var m := NextArgument(message[index..]);
      if m.None? {
        NoMatchNoTokens(message[index..]);
        return None;
      }
      TokensStep(message, index, args, m.value);
      args := args + [m.value.token];
      index := index + m.value.length;
    }
    assert message[index..] == [];
    assert args + [] == args;
    r := Some(args);
  }

  /** A rest of the line the argument pattern does not match has no tokens. */
  lemma NoMatchNoTokens(rest: string)
    requires |rest| > 0 && NextArgument(rest).None?
    ensures Tokens(rest) == None
  {
  }

  /** One turn of the argument loop keeps the tokens read so far and the rest of the line in step. */
  lemma TokensStep(message: string, index: nat, done: seq<string>, m: Lexeme)
    requires index < |message| && NextArgument(message[index..]) == Some(m)
    ensures index + m.length <= |message|
    ensures Prefixed(done, Tokens(message[index..])) == Prefixed(done + [m.token], Tokens(message[index + m.length..]))
  {
    assert message[index..][m.length..] == message[index + m.length..];
    var next := Tokens(message[index + m.length..]);
    assert next.Some? ==> done + ([m.token] + next.value) == done + [m.token] + next.value;
  }


  // ---------------------------------------------------------------- the line as the user writes it

  /** One argument as written: the whitespace before it, and the token either quoted or bare. */
  datatype Written = Quoted(gap: string, text: string) | Bare(gap: string, text: string)

  /** A gap of at least one whitespace character; quoted text without quotes; bare text one word not opening a quote. */
  predicate WellWritten(w: Written) {
    && |w.gap| > 0 && (forall i | 0 <= i < |w.gap| :: IsSpace(w.gap[i]))
    && match w
       case Quoted(_, text) => '"' !in text
       case Bare(_, text) => |text| > 0 && NoSpace(text) && text[0] != '"'
  }

  function Piece(w: Written): string {
    match w
    case Quoted(gap, text) => gap + "\"" + text + "\""
    case Bare(gap, text) => gap + text
  }

  function Render(ws: seq<Written>): string {
    if |ws| == 0 then "" else Piece(ws[0]) + Render(ws[1..])
  }

  function Texts(ws: seq<Written>): seq<string> {
    if |ws| == 0 then [] else [ws[0].text] + Texts(ws[1..])
  }

  /** The non-whitespace run of a word followed by whitespace or nothing is exactly the word. */
  lemma {:induction false} WordRunOfWord(word: string, more: string)
    requires NoSpace(word)
    requires |more| == 0 || IsSpace(more[0])
    ensures WordRun(word + more) == |word|
  {
    if |word| > 0 {
      assert (word + more)[1..] == word[1..] + more;
      WordRunOfWord(word[1..], more);
    }
  }

  /** One written argument is read back as its text, using exactly its own characters. */
  lemma NextArgumentOfPiece(w: Written, more: string)
    requires WellWritten(w)
    requires w.Bare? ==> |more| == 0 || IsSpace(more[0])
    ensures NextArgument(Piece(w) + more) == Some(Lexeme(w.text, |Piece(w)|))
  {
    if w.Quoted? {
      NextArgumentOfQuoted(w, more);
    } else {
      NextArgumentOfBare(w, more);
    }
  }

  lemma NextArgumentOfQuoted(w: Written, more: string)
    requires w.Quoted? && WellWritten(w)
    ensures NextArgument(Piece(w) + more) == Some(Lexeme(w.text, |Piece(w)|))
  {
    assert Piece(w) + more == w.gap + "\"" + w.text + "\"" + more;
    QuotedPieceAt(w.gap, w.text, more);
  }

  lemma NextArgumentOfBare(w: Written, more: string)
    requires w.Bare? && WellWritten(w)
    requires |more| == 0 || IsSpace(more[0])
    ensures NextArgument(Piece(w) + more) == Some(Lexeme(w.text, |Piece(w)|))
  {
    assert Piece(w) + more == w.gap + w.text + more;
    BarePieceAt(w.gap, w.text, more);
  }

  /** After a whitespace gap, a quoted text followed by anything is read as that text. */
  lemma QuotedPieceAt(gap: string, text: string, more: string)
    requires |gap| > 0 && (forall i | 0 <= i < |gap| :: IsSpace(gap[i])) && '"' !in text
    ensures NextArgument(gap + "\"" + text + "\"" + more) == Some(Lexeme(text, |gap| + |text| + 2))
  {
    var rest := gap + "\"" + text + "\"" + more;
    var g := |gap|;
    assert forall i | 0 <= i < g :: rest[i] == gap[i];
    assert rest[g] == '"' && rest[g + 1 + |text|] == '"';
    assert rest[g + 1..g + 1 + |text|] == text;
    QuotedAtIndex(rest, g, text);
  }

  /** After a whitespace gap, a bare word followed by whitespace or nothing is read as that word. */
  lemma BarePieceAt(gap: string, text: string, more: string)
    requires |gap| > 0 && (forall i | 0 <= i < |gap| :: IsSpace(gap[i]))
    requires |text| > 0 && NoSpace(text) && text[0] != '"'
    requires |more| == 0 || IsSpace(more[0])
    ensures NextArgument(gap + text + more) == Some(Lexeme(text, |gap| + |text|))
  {
    var rest := gap + text + more;
    var g := |gap|;
    assert forall i | 0 <= i < g :: rest[i] == gap[i];
    assert rest[g..g + |text|] == text;
    assert g + |text| < |rest| ==> rest[g + |text|] == more[0];
    BareAtIndex(rest, g, text);
  }

  /** The whitespace run is `k` long when the first `k` characters are whitespace and the next is not. */
  lemma SpaceRunIs(s: string, k: nat)
    requires k <= |s| && forall i | 0 <= i < k :: IsSpace(s[i])
    requires k < |s| ==> !IsSpace(s[k])
    ensures SpaceRun(s) == k
  {
    SpaceRunSpec(s);
  }

  /** The non-whitespace run is `k` long when the first `k` characters are not whitespace and the next is. */
  lemma WordRunIs(s: string, k: nat)
    requires k <= |s| && NoSpace(s[..k])
    requires k < |s| ==> IsSpace(s[k])
    ensures WordRun(s) == k
  {
    WordRunSpec(s);
    var n := WordRun(s);
    PrefixAt(s, k, n);
    PrefixAt(s, n, k);
  }

  /** Indexing a prefix is indexing the text. */
  lemma PrefixAt<T>(s: seq<T>, k: nat, n: nat)
    ensures n < k <= |s| ==> s[..k][n] == s[n]
  {
  }

  /** The first `c` in `s` is at `k` when `s[k]` is `c` and none comes before it. */
  lemma IndexOfIs(s: string, c: char, k: nat)
    requires k < |s| && s[k] == c && c !in s[..k]
    ensures IndexOf(s, c) == Some(k)
  {
    assert s == s[..k] + [c] + s[k + 1..];
    IndexOfAfter(s[..k], c, s[k + 1..]);
  }

  /** At `g`, after whitespace only, a quote, a quote-free `text` and a closing quote: the quoted form. */
  lemma QuotedAtIndex(rest: string, g: nat, text: string)
    requires 0 < g && g + |text| + 1 < |rest|
    requires forall i | 0 <= i < g :: IsSpace(rest[i])
    requires rest[g] == '"' && rest[g + 1..g + 1 + |text|] == text && '"' !in text
    requires rest[g + 1 + |text|] == '"'
    ensures NextArgument(rest) == Some(Lexeme(text, g + |text| + 2))
  {
    SpaceRunIs(rest, g);
    assert rest[g + 1..][..|text|] == text;
    IndexOfIs(rest[g + 1..], '"', |text|);
    QuotedAt(rest, g, |text|, text);
  }

  /** At `g`, after whitespace only, a word not opening a closed quote and then whitespace or the end: the bare form. */
  lemma BareAtIndex(rest: string, g: nat, word: string)
    requires 0 < g && g + |word| <= |rest| && |word| > 0 && NoSpace(word)
    requires forall i | 0 <= i < g :: IsSpace(rest[i])
    requires rest[g..g + |word|] == word
    requires g + |word| < |rest| ==> IsSpace(rest[g + |word|])
    requires word[0] == '"' ==> '"' !in rest[g + 1..]
    ensures NextArgument(rest) == Some(Lexeme(word, g + |word|))
  {
    assert rest[g] == word[0];
    SpaceRunIs(rest, g);
    assert rest[g..][..|word|] == word;
    WordRunIs(rest[g..], |word|);
    if word[0] == '"' {
      IndexOfAbsent(rest[g + 1..], '"');
    }
    BareAt(rest, g, |word|, word);
  }

  /** The argument pattern takes the quoted form at `w` when a closing quote follows. */
  lemma QuotedAt(rest: string, w: nat, k: nat, token: string)
    requires 0 < w < |rest| && SpaceRun(rest) == w && rest[w] == '"'
    requires IndexOf(rest[w + 1..], '"') == Some(k) && rest[w + 1..w + 1 + k] == token
    ensures NextArgument(rest) == Some(Lexeme(token, w + k + 2))
  {
  }

  /** The argument pattern falls back to the bare form at `w` when no closing quote follows. */
  lemma BareAt(rest: string, w: nat, b: nat, token: string)
    requires 0 < w < |rest| && SpaceRun(rest) == w
    requires rest[w] == '"' ==> IndexOf(rest[w + 1..], '"').None?
    requires WordRun(rest[w..]) == b && rest[w..w + b] == token
    ensures NextArgument(rest) == Some(Lexeme(token, w + b))
  {
  }

  /**
   * Arguments written with whitespace before each one, each either quoted (without inner
   * quotes, possibly empty) or a bare word, are tokenized back to exactly their texts.
   */
  lemma {:induction false} RenderRoundTrip(ws: seq<Written>)
    requires forall i | 0 <= i < |ws| :: WellWritten(ws[i])
    ensures Tokens(Render(ws)) == Some(Texts(ws))
  {
    if |ws| > 0 {
      var more := Render(ws[1..]);
      if |ws| > 1 {
        assert more == Piece(ws[1]) + Render(ws[2..]);
        assert IsSpace(ws[1].gap[0]);
        assert more[0] == ws[1].gap[0];
      }
      NextArgumentOfPiece(ws[0], more);
      assert Render(ws)[|Piece(ws[0])|..] == more;
      RenderRoundTrip(ws[1..]);
    }
  }

  /**
   * What one match of the argument pattern can be: a gap of at least one whitespace
   * character, then quoted text without quotes or a non-empty word (which may open a quote
   * that is never closed).
   */
  predicate Scanned(w: Written) {
    && |w.gap| > 0 && (forall i | 0 <= i < |w.gap| :: IsSpace(w.gap[i]))
    && match w
       case Quoted(_, text) => '"' !in text
       case Bare(_, text) => |text| > 0 && NoSpace(text)
  }

  /** The argument written out by the first match of the pattern. */
  function Matched(rest: string): Written
    requires NextArgument(rest).Some?
  {
    var w := SpaceRun(rest);
    if rest[w] == '"' && IndexOf(rest[w + 1..], '"').Some? then Quoted(rest[..w], NextArgument(rest).value.token)
    else Bare(rest[..w], NextArgument(rest).value.token)
  }

  /** The first match is one scanned argument, written as exactly the text the match used. */
  lemma MatchedPiece(rest: string)
    requires NextArgument(rest).Some?
    ensures var w := Matched(rest);
      && Scanned(w) && w.text == NextArgument(rest).value.token
      && Piece(w) == rest[..NextArgument(rest).value.length]
  {
    var w := SpaceRun(rest);
    if rest[w] == '"' && IndexOf(rest[w + 1..], '"').Some? {
      QuotedLexeme(rest);
      QuotedText(rest, w);
      QuotedPiece(rest, w, IndexOf(rest[w + 1..], '"').value);
    } else {
      BareMatched(rest);
    }
  }

  /** The whitespace run before a match is a gap. */
  lemma GapIsSpace(rest: string)
    requires 0 < SpaceRun(rest)
    ensures var gap := rest[..SpaceRun(rest)];
      |gap| > 0 && forall i | 0 <= i < |gap| :: IsSpace(gap[i])
  {
    SpaceRunSpec(rest);
  }

  /** The lexeme and the written argument of a quoted match. */
  lemma QuotedLexeme(rest: string)
    requires NextArgument(rest).Some?
    requires rest[SpaceRun(rest)] == '"' && IndexOf(rest[SpaceRun(rest) + 1..], '"').Some?
    ensures var w := SpaceRun(rest);
      var k := IndexOf(rest[w + 1..], '"').value;
      && NextArgument(rest) == Some(Lexeme(rest[w + 1..w + 1 + k], w + k + 2))
      && Matched(rest) == Quoted(rest[..w], rest[w + 1..w + 1 + k])
  {
  }

  lemma BareMatched(rest: string)
    requires NextArgument(rest).Some?
    requires !(rest[SpaceRun(rest)] == '"' && IndexOf(rest[SpaceRun(rest) + 1..], '"').Some?)
    ensures var w := Matched(rest);
      && Scanned(w) && w.text == NextArgument(rest).value.token
      && Piece(w) == rest[..NextArgument(rest).value.length]
  {
    var w := SpaceRun(rest);
    SpaceRunSpec(rest);
    var gap := rest[..w];
    assert |gap| > 0 && forall i | 0 <= i < |gap| :: IsSpace(gap[i]);
    var b := WordRun(rest[w..]);
    assert NextArgument(rest).value == Lexeme(rest[w..w + b], w + b);
    assert Matched(rest) == Bare(gap, rest[w..w + b]);
    BarePiece(rest, w);
  }

  /** A quoted match: the gap, the opening quote, text without quotes and the closing quote. */
  lemma QuotedPiece(rest: string, w: nat, k: nat)
    requires 0 < w == SpaceRun(rest) && w + k + 2 <= |rest|
    requires rest[w] == '"' && rest[w + 1 + k] == '"' && '"' !in rest[w + 1..w + 1 + k]
    ensures Scanned(Quoted(rest[..w], rest[w + 1..w + 1 + k]))
    ensures Piece(Quoted(rest[..w], rest[w + 1..w + 1 + k])) == rest[..w + k + 2]
  {
    GapIsSpace(rest);
    QuotedSpan(rest, w, k);
  }

  /** The quoted text runs up to the first quote after the opening one. */
  lemma QuotedText(rest: string, w: nat)
    requires w < |rest| && IndexOf(rest[w + 1..], '"').Some?
    ensures var k := IndexOf(rest[w + 1..], '"').value;
      && w + k + 2 <= |rest| && rest[w + 1 + k] == '"' && '"' !in rest[w + 1..w + 1 + k]
  {
    var tail := rest[w + 1..];
    var k := IndexOf(tail, '"').value;
    IndexOfSpec(tail, '"');
    assert tail[..k] == rest[w + 1..w + 1 + k];
    assert rest[w + 1 + k] == tail[k];
  }

  /** Gap, quote, text and quote laid end to end are the text they were cut from. */
  lemma QuotedSpan(rest: string, w: nat, k: nat)
    requires w + k + 2 <= |rest| && rest[w] == '"' && rest[w + 1 + k] == '"'
    ensures Piece(Quoted(rest[..w], rest[w + 1..w + 1 + k])) == rest[..w + k + 2]
  {
    assert rest[w..w + 1] == "\"" && rest[w + 1 + k..w + k + 2] == "\"";
    assert rest[..w + k + 2] == rest[..w] + rest[w..w + 1] + rest[w + 1..w + 1 + k] + rest[w + 1 + k..w + k + 2];
  }

  /** A bare match: the gap and a non-empty word. */
  lemma BarePiece(rest: string, w: nat)
    requires 0 < w < |rest| && !IsSpace(rest[w])
    ensures var b := WordRun(rest[w..]);
      && b > 0 && NoSpace(rest[w..w + b]) && rest[..w + b] == rest[..w] + rest[w..w + b]
  {
    WordRunSpec(rest[w..]);
    var b := WordRun(rest[w..]);
    assert rest[w..][..b] == rest[w..w + b];
  }

  /**
   * The converse of RenderRoundTrip: text the tokenizer accepts is a sequence of scanned
   * arguments written one after the other, whose texts are the tokens.
   */
  lemma {:induction false} TokensAreRendered(rest: string)
    requires Tokens(rest).Some?
    ensures exists ws: seq<Written> :: RendersAs(ws, rest, Tokens(rest).value)
    decreases |rest|
  {
    if |rest| == 0 {
      assert RendersAs([], rest, []);
    } else {
      TokensCons(rest);
      var x := NextArgument(rest).value;
      var after := rest[x.length..];
      TokensAreRendered(after);
      var tail :| RendersAs(tail, after, Tokens(after).value);
      MatchedPiece(rest);
      RendersAsCons(Matched(rest), tail, rest[..x.length], after, Tokens(after).value);
      assert rest[..x.length] + after == rest;
    }
  }

  /** `ws` are scanned arguments that write out `text` and carry the tokens `ts`. */
  predicate RendersAs(ws: seq<Written>, text: string, ts: seq<string>) {
    && (forall i | 0 <= i < |ws| :: Scanned(ws[i]))
    && Render(ws) == text && Texts(ws) == ts
  }

  /** Accepted non-empty text is one match followed by accepted text. */
  lemma TokensCons(rest: string)
    requires |rest| > 0 && Tokens(rest).Some?
    ensures NextArgument(rest).Some?
    ensures var x := NextArgument(rest).value;
      && Tokens(rest[x.length..]).Some?
      && Tokens(rest).value == [x.token] + Tokens(rest[x.length..]).value
  {
  }

  /** One more scanned argument written in front. */
  lemma RendersAsCons(w: Written, tail: seq<Written>, piece: string, text: string, ts: seq<string>)
    requires Scanned(w) && Piece(w) == piece && RendersAs(tail, text, ts)
    ensures RendersAs([w] + tail, piece + text, [w.text] + ts)
  {
    var ws := [w] + tail;
    assert ws[1..] == tail;
    forall i | 0 <= i < |ws| ensures Scanned(ws[i]) {
      if i > 0 { assert ws[i] == tail[i - 1]; }
    }
  }

  /** A written argument starts with its gap. */
  lemma PieceStartsWithGap(w: Written)
    requires |w.gap| > 0
    ensures |Piece(w)| > 0 && Piece(w)[0] == w.gap[0]
  {
  }

  /** Rendered arguments are empty or start with whitespace. */
  lemma RenderStartsWithSpace(ws: seq<Written>)
    requires forall i | 0 <= i < |ws| :: WellWritten(ws[i])
    ensures |ws| > 0 ==> |Render(ws)| > 0 && IsSpace(Render(ws)[0])
  {
    if |ws| > 0 {
      var w := ws[0];
      assert WellWritten(w);
      PieceStartsWithGap(w);
      assert Render(ws)[0] == Piece(w)[0];
    }
  }

  /**
   * A whole line as the user writes it, the command character, a name and well-written
   * arguments, parses back to that name and exactly those argument texts.
   */
  lemma LineRoundTrip(commandChar: char, name: string, ws: seq<Written>)
    requires |name| > 0 && NoSpace(name)
    requires forall i | 0 <= i < |ws| :: WellWritten(ws[i])
    ensures ParseLine([commandChar] + name + Render(ws)) == Ok(Parsed(name, Texts(ws)))
  {
    var rest := Render(ws);
    RenderStartsWithSpace(ws);
    if |ws| == 0 {
      assert rest == "";
    }
    NameThenRest(commandChar, name, rest);
    RenderRoundTrip(ws);
  }

  /**
   * A written line reaches the command registered under its name with exactly the argument
   * texts, and its answer is that command's outcome after the failure boundary; an
   * unregistered name is "Invalid command".
   */
  lemma DispatchRendered(commandChar: char, commands: map<string, Command>, sender: Sender, name: string, ws: seq<Written>)
    requires |name| > 0 && NoSpace(name)
    requires forall i | 0 <= i < |ws| :: WellWritten(ws[i])
    ensures var message := [commandChar] + name + Render(ws);
      Execute(commandChar, commands, sender, message) ==
        if name in commands then Normalise(commands[name], Run(commands[name], sender, Texts(ws)))
        else Some(INVALID_COMMAND)
  {
    var message := [commandChar] + name + Render(ws);
    LineRoundTrip(commandChar, name, ws);
    assert message[0] == commandChar;
  }

  /** The name run of `c name rest` is `name` when `rest` is empty or starts with whitespace. */
  lemma NameThenRest(c: char, name: string, rest: string)
    requires |name| > 0 && NoSpace(name)
    requires |rest| == 0 || IsSpace(rest[0])
    ensures var message := [c] + name + rest;
      && WordRun(message[1..]) == |name|
      && message[1..1 + |name|] == name
      && message[1 + |name|..] == rest
  {
    var message := [c] + name + rest;
    assert message[1..] == name + rest;
    WordRunOfWord(name, rest);
  }

  /** A line whose name is followed by text that does not tokenize answers "Invalid argument", whatever the commands. */
  lemma UntokenizableRejected(commandChar: char, commands: map<string, Command>, sender: Sender, name: string, rest: string)
    requires |name| > 0 && NoSpace(name)
    requires |rest| > 0 && IsSpace(rest[0]) && Tokens(rest) == None
    ensures Execute(commandChar, commands, sender, [commandChar] + name + rest) == Some(INVALID_ARGUMENT)
  {
    var message := [commandChar] + name + rest;
    NameThenRest(commandChar, name, rest);
    assert message[0] == commandChar;
    assert ParseLine(message) == Err(INVALID_ARGUMENT);
  }

  /** Text that ends in whitespace never tokenizes: no match can end on a whitespace character. */
  lemma {:induction false} TrailingSpaceRejected(rest: string)
    requires |rest| > 0 && IsSpace(rest[|rest| - 1])
    ensures Tokens(rest) == None
    decreases |rest|
  {
    NextArgumentMatches(rest);
    match NextArgument(rest)
    case None =>
    case Some(x) =>
      var next := rest[x.length..];
      assert x.length < |rest|;
      assert next[|next| - 1] == rest[|rest| - 1];
      TrailingSpaceRejected(next);
  }

  /** Text glued to a closing quote makes the whole argument list invalid. */
  lemma GluedAfterQuoteRejected(gap: string, inner: string, more: string)
    requires WellWritten(Quoted(gap, inner))
    requires |more| > 0 && !IsSpace(more[0])
    ensures Tokens(Piece(Quoted(gap, inner)) + more) == None
  {
    var rest := Piece(Quoted(gap, inner)) + more;
    NextArgumentOfPiece(Quoted(gap, inner), more);
    assert rest[|Piece(Quoted(gap, inner))|..] == more;
    assert NextArgument(more) == None;
  }

  /** A quote that is never closed does not start a quoted token: the word it begins is taken bare. */
  lemma UnclosedQuoteIsBare(gap: string, word: string, more: string)
    requires |gap| > 0 && forall i | 0 <= i < |gap| :: IsSpace(gap[i])
    requires |word| > 0 && word[0] == '"' && NoSpace(word)
    requires |more| == 0 || IsSpace(more[0])
    requires '"' !in word[1..] + more
    ensures NextArgument(gap + word + more) == Some(Lexeme(word, |gap| + |word|))
  {
    var rest := gap + word + more;
    var g := |gap|;
    assert forall i | 0 <= i < g :: rest[i] == gap[i];
    assert rest[g..g + |word|] == word;
    assert g + |word| < |rest| ==> rest[g + |word|] == more[0];
    assert rest[g + 1..] == word[1..] + more;
    BareAtIndex(rest, g, word);
  }

  // ---------------------------------------------------------------- the executor's decisions

  /** Lines that do not start with the command character get no response, and those are the only ones besides empty replies. */
  lemma ExecuteNoneIff(commandChar: char, commands: map<string, Command>, sender: Sender, message: string)
    ensures Execute(commandChar, commands, sender, message).None? <==>
      || |message| == 0 || message[0] != commandChar
      || (&& ParseLine(message).Ok?
          && ParseLine(message).value.name in commands
          && var c := commands[ParseLine(message).value.name];
             var o := Run(c, sender, ParseLine(message).value.args);
             o.Returned? && o.response.reply == "")
  {
  }

  /**
   * Lookup comes after tokenizing: a line whose arguments do not tokenize is "Invalid argument"
   * whatever the registry holds; a well-formed line with an unknown name is "Invalid command".
   */
  lemma LookupAfterTokenizing(commandChar: char, commands: map<string, Command>, sender: Sender, message: string)
    requires |message| > 0 && message[0] == commandChar
    ensures ParseLine(message) == Err(INVALID_ARGUMENT) ==>
      Execute(commandChar, commands, sender, message) == Some(INVALID_ARGUMENT)
    ensures ParseLine(message).Ok? && ParseLine(message).value.name !in commands ==>
      Execute(commandChar, commands, sender, message) == Some(INVALID_COMMAND)
    ensures |message| == 1 || IsSpace(message[1]) ==>
      Execute(commandChar, commands, sender, message) == Some(INVALID_COMMAND)
  {
  }

  /**
   * The failure boundary: a command that throws (in binding or in its handler) yields the
   * generic error reply with the command's own privacy flag; a non-empty reply is passed on
   * unchanged.
   */
  lemma FailureBoundary(commandChar: char, commands: map<string, Command>, sender: Sender, message: string)
    requires |message| > 0 && message[0] == commandChar
    requires ParseLine(message).Ok? && ParseLine(message).value.name in commands
    ensures var c := commands[ParseLine(message).value.name];
      var o := Run(c, sender, ParseLine(message).value.args);
      && (o.Thrown? ==> Execute(commandChar, commands, sender, message) == Some(CommandResponse(c.privateReply, ERROR_REPLY, [])))
      && (o.Returned? && o.response.reply != "" ==> Execute(commandChar, commands, sender, message) == Some(o.response))
  {
  }
}
