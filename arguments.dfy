/**
 * The parameter slots of a command declared with the argument DSL, common to both
 * generations of the DSL: the four kinds of slot, the declaration-order rules, the
 * usage text each slot renders to, and the positional binding of argument tokens to
 * slots. A binding frame is built afresh for every call (one value per slot) instead
 * of being written into fields shared by all calls.
 */
module Arguments {
  import opened Wrappers
  import opened Text
  import opened Numbers

  /** A declared slot; `name` is the name of the Kotlin property the slot is delegated to. */
  datatype Argument =
    | Required(name: string)
    | Optional(name: string)
    | Default(name: string, defaultValue: string)
    | Vararg(name: string)

  /** What a slot holds once bound: one token, nothing (an Optional not supplied), or a list. */
  datatype SlotValue = Value(value: string) | Absent | Values(values: seq<string>)

  type Frame = seq<SlotValue>

  // ---------------------------------------------------------------- usage text

  /** `Argument.toString`: `name`, `[name]`, `[name=default]` or `[name...]`. */
  function Usage(a: Argument): string {
    match a
    case Required(n) => n
    case Optional(n) => "[" + n + "]"
    case Default(n, d) => "[" + n + "=" + d + "]"
    case Vararg(n) => "[" + n + "...]"
  }

  function UsageList(ps: seq<Argument>): seq<string> {
    seq(|ps|, i requires 0 <= i < |ps| => Usage(ps[i]))
  }

  /** `parameters.joinToString(" ")`. */
  function ParamsUsage(ps: seq<Argument>): string {
    Join(UsageList(ps), " ")
  }

  predicate IsIdentifierChar(c: char) {
    ('a' <= c <= 'z') || ('A' <= c <= 'Z') || ('0' <= c <= '9') || c == '_'
  }

  /** The names a Kotlin property can have (backquoted names aside). */
  predicate IsIdentifier(s: string) {
    |s| > 0 && forall i | 0 <= i < |s| :: IsIdentifierChar(s[i])
  }

  /** Reads a usage token back into the slot it describes. */
  function ParseUsage(t: string): Argument {
    if |t| >= 2 && t[0] == '[' && t[|t| - 1] == ']' then
      var inner := t[1..|t| - 1];
      match IndexOf(inner, '=')
      case Some(e) => Default(inner[..e], inner[e + 1..])
      case None =>
        if |inner| >= 3 && inner[|inner| - 3..] == "..." then Vararg(inner[..|inner| - 3])
        else Optional(inner)
    else Required(t)
  }

  lemma IdentifierHasNoMarks(n: string)
    requires IsIdentifier(n)
    ensures '=' !in n && '.' !in n && n[0] != '['
  {
    forall i | 0 <= i < |n| ensures n[i] != '=' && n[i] != '.' {
      assert IsIdentifierChar(n[i]);
    }
    assert IsIdentifierChar(n[0]);
  }

  /** The usage text determines the slot: kind, name and default value can be read back from it. */
  lemma UsageRoundTrip(a: Argument)
    requires IsIdentifier(a.name)
    ensures ParseUsage(Usage(a)) == a
  {
    IdentifierHasNoMarks(a.name);
    match a
    case Required(_) =>
    case Optional(n) => OptionalRoundTrip(n);
    case Default(n, d) => DefaultRoundTrip(n, d);
    case Vararg(n) => VarargRoundTrip(n);
  }

  lemma OptionalRoundTrip(n: string)
    requires '=' !in n && '.' !in n
    ensures ParseUsage(Usage(Optional(n))) == Optional(n)
  {
    var t := Usage(Optional(n));
    assert t[1..|t| - 1] == n;
    if |n| >= 3 {
      assert n[|n| - 1] == n[|n| - 3..][2];
    }
  }

  lemma DefaultRoundTrip(n: string, d: string)
    requires '=' !in n
    ensures ParseUsage(Usage(Default(n, d))) == Default(n, d)
  {
    var t := Usage(Default(n, d));
    var inner := t[1..|t| - 1];
    assert inner == n + ['='] + d;
    IndexOfAfter(n, '=', d);
    assert inner[..|n|] == n;
    assert inner[|n| + 1..] == d;
  }

  lemma VarargRoundTrip(n: string)
    requires '=' !in n
    ensures ParseUsage(Usage(Vararg(n))) == Vararg(n)
  {
    var t := Usage(Vararg(n));
    var inner := t[1..|t| - 1];
    assert inner == n + "...";
    assert inner[|inner| - 3..] == "...";
    assert inner[..|inner| - 3] == n;
    assert '=' !in inner by {
      forall i | 0 <= i < |inner| ensures inner[i] != '=' {
        if i < |n| { assert inner[i] == n[i]; }
      }
    }
  }

  // ---------------------------------------------------------------- shape

  /** Required slots come first, then Optional/Default slots, then at most one Vararg. */
  function Rank(a: Argument): nat {
    match a
    case Required(_) => 0
    case Optional(_) => 1
    case Default(_, _) => 1
    case Vararg(_) => 2
  }

  /** The shape `Required* (Optional|Default)* Vararg?`. */
  predicate WellShaped(ps: seq<Argument>) {
    && (forall i, j | 0 <= i < j < |ps| :: Rank(ps[i]) <= Rank(ps[j]))
    && (forall i | 0 <= i < |ps| - 1 :: !ps[i].Vararg?)
  }

  /** `requiredParameters`: the number of Required slots. */
  function CountRequired(ps: seq<Argument>): (k: nat)
    ensures k <= |ps|
  {
    if |ps| == 0 then 0
    else CountRequired(ps[..|ps| - 1]) + (if ps[|ps| - 1].Required? then 1 else 0)
  }

  /** `optionalParameters`: the number of Optional and Default slots. */
  function CountOptional(ps: seq<Argument>): (m: nat)
    ensures CountRequired(ps) + m <= |ps|
  {
    if |ps| == 0 then 0
    else CountOptional(ps[..|ps| - 1]) + (if ps[|ps| - 1].Optional? || ps[|ps| - 1].Default? then 1 else 0)
  }

  /** `vararg`: whether a Vararg slot was declared. */
  predicate HasVararg(ps: seq<Argument>) {
    exists i | 0 <= i < |ps| :: ps[i].Vararg?
  }

  lemma CountsAppend(ps: seq<Argument>, a: Argument)
    ensures CountRequired(ps + [a]) == CountRequired(ps) + (if a.Required? then 1 else 0)
    ensures CountOptional(ps + [a]) == CountOptional(ps) + (if a.Optional? || a.Default? then 1 else 0)
    ensures HasVararg(ps + [a]) == (HasVararg(ps) || a.Vararg?)
  {
    assert (ps + [a])[..|ps|] == ps;
    if HasVararg(ps) {
      var i :| 0 <= i < |ps| && ps[i].Vararg?;
      assert (ps + [a])[i] == ps[i];
    }
  }

  /** The messages of the IllegalStateException a refused declaration throws. */
  const REQUIRED_AFTER_VARARG: string := "a required parameter after a vararg parameter is not allowed"
  const REQUIRED_AFTER_OPTIONAL: string := "a required parameter after an optional parameter is not allowed"
  const REQUIRED_AFTER_DEFAULT: string := "a required parameter after a default parameter is not allowed"
  const OPTIONAL_AFTER_VARARG: string := "an optional parameter after a vararg parameter is not allowed"
  const DEFAULT_AFTER_VARARG: string := "a default parameter after a vararg parameter is not allowed"
  const VARARG_AFTER_VARARG: string := "a vararg parameter after a vararg parameter is not allowed"

  /**
   * The checks `required()`, `optional()`, `default()` and `vararg()` make before appending a
   * slot; Some carries the message of the IllegalStateException they throw.
   */
  function Rejection(ps: seq<Argument>, a: Argument): Option<string> {
    match a
    case Required(_) =>
      if HasVararg(ps) then Some(REQUIRED_AFTER_VARARG)
      else if |ps| > 0 && ps[|ps| - 1].Optional? then Some(REQUIRED_AFTER_OPTIONAL)
      else if |ps| > 0 && ps[|ps| - 1].Default? then Some(REQUIRED_AFTER_DEFAULT)
      else None
    case Optional(_) =>
      if HasVararg(ps) then Some(OPTIONAL_AFTER_VARARG) else None
    case Default(_, _) =>
      if HasVararg(ps) then Some(DEFAULT_AFTER_VARARG) else None
    case Vararg(_) =>
      if HasVararg(ps) then Some(VARARG_AFTER_VARARG) else None
  }

  /** In a well-shaped list a Vararg can only be the last slot. */
  lemma VarargIsLast(ps: seq<Argument>)
    requires WellShaped(ps)
    ensures HasVararg(ps) <==> (|ps| > 0 && ps[|ps| - 1].Vararg?)
  {
  }

  /** An accepted declaration keeps the list well shaped. */
  lemma DeclarationKeepsShape(ps: seq<Argument>, a: Argument)
    requires WellShaped(ps)
    requires Rejection(ps, a).None?
    ensures WellShaped(ps + [a])
  {
    VarargIsLast(ps);
    forall i | 0 <= i < |ps| ensures Rank(ps[i]) <= Rank(a) {
      if a.Required? {
        assert Rank(ps[i]) <= Rank(ps[|ps| - 1]);
      } else {
        assert !ps[i].Vararg?;
      }
    }
    AppendRanked(ps, a);
  }

  /** A slot ranked at least as high as every slot of a Vararg-free well-shaped list extends it well shaped. */
  lemma AppendRanked(ps: seq<Argument>, a: Argument)
    requires WellShaped(ps) && !HasVararg(ps)
    requires forall i | 0 <= i < |ps| :: Rank(ps[i]) <= Rank(a)
    ensures WellShaped(ps + [a])
  {
    var qs := ps + [a];
    forall i, j | 0 <= i < j < |qs| ensures Rank(qs[i]) <= Rank(qs[j]) {
      assert qs[i] == ps[i];
      if j < |ps| {
        assert qs[j] == ps[j];
      }
    }
    forall i | 0 <= i < |qs| - 1 ensures !qs[i].Vararg? {
      assert qs[i] == ps[i];
    }
  }

  /** Every declaration that would break the shape is rejected. */
  lemma RejectionGuardsShape(ps: seq<Argument>, a: Argument)
    requires WellShaped(ps)
    requires WellShaped(ps + [a])
    ensures Rejection(ps, a).None?
  {
    VarargIsLast(ps);
    var qs := ps + [a];
    if |ps| > 0 {
      assert Rank(qs[|ps| - 1]) <= Rank(qs[|ps|]);
      assert !qs[|ps| - 1].Vararg?;
    }
  }

  /** Every declaration of the list, made in order, is accepted. */
  predicate Declarable(ps: seq<Argument>) {
    forall i | 0 <= i < |ps| :: Rejection(ps[..i], ps[i]).None?
  }

  /** Declaring slots in order succeeds exactly for the well-shaped lists. */
  lemma {:induction false} DeclarableIffWellShaped(ps: seq<Argument>)
    ensures Declarable(ps) <==> WellShaped(ps)
  {
    if |ps| > 0 {
      var init, a := ps[..|ps| - 1], ps[|ps| - 1];
      assert ps == init + [a];
      DeclarableIffWellShaped(init);
      assert Declarable(ps) <==> Declarable(init) && Rejection(init, a).None? by {
        forall i | 0 <= i < |init| ensures ps[..i] == init[..i] && ps[i] == init[i] { }
      }
      if WellShaped(ps) {
        assert WellShaped(init);
        RejectionGuardsShape(init, a);
      }
      if Declarable(ps) {
        DeclarationKeepsShape(init, a);
      }
    }
  }

  /**
   * The layout of a well-shaped list: slots `0..k` are Required, slots `k..k+m` are
   * Optional or Default, and a Vararg, if any, sits at index `k+m`.
   */
  lemma {:induction false} ShapeLayout(ps: seq<Argument>)
    requires WellShaped(ps)
    ensures |ps| == CountRequired(ps) + CountOptional(ps) + (if HasVararg(ps) then 1 else 0)
    ensures forall i | 0 <= i < |ps| :: ps[i].Required? <==> i < CountRequired(ps)
    ensures forall i | 0 <= i < |ps| :: ps[i].Vararg? <==> i == CountRequired(ps) + CountOptional(ps)
  {
    if |ps| > 0 {
      var init, a := ps[..|ps| - 1], ps[|ps| - 1];
      assert ps == init + [a];
      ShapedInit(init, a);
      ShapeLayout(init);
      ShapeLayoutStep(init, a);
    }
  }

  /** Dropping the last slot keeps a list well shaped. */
  lemma ShapedInit(init: seq<Argument>, a: Argument)
    requires WellShaped(init + [a])
    ensures WellShaped(init)
  {
    var ps := init + [a];
    assert forall i | 0 <= i < |init| :: ps[i] == init[i];
  }

  /** The layout of ShapeLayout carries over from a well-shaped list to the list with one more slot. */
  lemma ShapeLayoutStep(init: seq<Argument>, a: Argument)
    requires WellShaped(init + [a])
    requires |init| == CountRequired(init) + CountOptional(init) + (if HasVararg(init) then 1 else 0)
    requires forall i | 0 <= i < |init| :: init[i].Required? <==> i < CountRequired(init)
    requires forall i | 0 <= i < |init| :: init[i].Vararg? <==> i == CountRequired(init) + CountOptional(init)
    ensures var ps := init + [a];
      && |ps| == CountRequired(ps) + CountOptional(ps) + (if HasVararg(ps) then 1 else 0)
      && (forall i | 0 <= i < |ps| :: ps[i].Required? <==> i < CountRequired(ps))
      && (forall i | 0 <= i < |ps| :: ps[i].Vararg? <==> i == CountRequired(ps) + CountOptional(ps))
  {
    ShapedInit(init, a);
    CountsAppend(init, a);
    VarargIsLast(init);
    VarargIsLast(init + [a]);
    RequiredStep(init, a);
    VarargStep(init, a);
  }

  lemma RequiredStep(init: seq<Argument>, a: Argument)
    requires WellShaped(init + [a])
    requires forall i | 0 <= i < |init| :: init[i].Required? <==> i < CountRequired(init)
    requires CountRequired(init + [a]) == CountRequired(init) + (if a.Required? then 1 else 0)
    requires CountRequired(init) <= |init|
    ensures var ps := init + [a];
      forall i | 0 <= i < |ps| :: ps[i].Required? <==> i < CountRequired(ps)
  {
    var ps := init + [a];
    forall i | 0 <= i < |ps| ensures ps[i].Required? <==> i < CountRequired(ps) {
      if i < |init| {
        assert ps[i] == init[i];
        if a.Required? {
          assert Rank(ps[i]) <= Rank(ps[|init|]);
        }
      }
    }
  }

  lemma VarargStep(init: seq<Argument>, a: Argument)
    requires forall i | 0 <= i < |init| :: init[i].Vararg? <==> i == CountRequired(init) + CountOptional(init)
    requires !HasVararg(init) || !a.Vararg?
    requires HasVararg(init) <==> |init| > 0 && init[|init| - 1].Vararg?
    requires HasVararg(init + [a]) <==> |init + [a]| > 0 && (init + [a])[|init|].Vararg?
    requires |init| == CountRequired(init) + CountOptional(init) + (if HasVararg(init) then 1 else 0)
    requires CountRequired(init + [a]) + CountOptional(init + [a]) ==
      CountRequired(init) + CountOptional(init) + (if a.Vararg? then 0 else 1)
    ensures var ps := init + [a];
      forall i | 0 <= i < |ps| :: ps[i].Vararg? <==> i == CountRequired(ps) + CountOptional(ps)
  {
    var ps := init + [a];
    forall i | 0 <= i < |ps| ensures ps[i].Vararg? <==> i == CountRequired(ps) + CountOptional(ps) {
      if i < |init| {
        assert ps[i] == init[i];
      }
    }
  }

  /**
   * Conversely, a list laid out as `k` Required, then `m` Optional/Default slots, then possibly
   * a Vararg is well shaped with exactly those counts.
   */
  lemma {:induction false} LayoutCounts(ps: seq<Argument>, k: nat, m: nat, v: bool)
    requires |ps| == k + m + (if v then 1 else 0)
    requires forall i | 0 <= i < k :: ps[i].Required?
    requires forall i | k <= i < k + m :: ps[i].Optional? || ps[i].Default?
    requires v ==> ps[k + m].Vararg?
    ensures CountRequired(ps) == k && CountOptional(ps) == m && HasVararg(ps) == v
    ensures WellShaped(ps)
    decreases |ps|
  {
    if |ps| > 0 {
      var init := ps[..|ps| - 1];
      var last := ps[|ps| - 1];
      assert forall i | 0 <= i < |init| :: init[i] == ps[i];
      if v {
        LayoutCounts(init, k, m, false);
      } else if m > 0 {
        LayoutCounts(init, k, m - 1, false);
      } else {
        LayoutCounts(init, k - 1, 0, false);
      }
      assert ps == init + [last];
      CountsAppend(init, last);
    }
    LayoutShape(ps, k, m, v);
  }

  /** The layout of LayoutCounts ranks its slots in order and has a Vararg last at most. */
  lemma LayoutShape(ps: seq<Argument>, k: nat, m: nat, v: bool)
    requires |ps| == k + m + (if v then 1 else 0)
    requires forall i | 0 <= i < k :: ps[i].Required?
    requires forall i | k <= i < k + m :: ps[i].Optional? || ps[i].Default?
    requires v ==> ps[k + m].Vararg?
    ensures WellShaped(ps)
  {
    forall i, j | 0 <= i < j < |ps| ensures Rank(ps[i]) <= Rank(ps[j]) {
      if i < k {
        assert Rank(ps[i]) == 0;
      } else if i < k + m {
        assert Rank(ps[i]) == 1 && Rank(ps[j]) >= 1;
      }
    }
  }

  // ---------------------------------------------------------------- binding

  /**
   * The value slot `i` receives from `args`: `args[i]` for Required (out of range throws),
   * `args.getOrNull(i)` for Optional, `args.getOrNull(i) ?: default` for Default and
   * `args.subList(i, args.size)` for Vararg (a start past the end throws). None is a throw.
   */
  function BindSlot(a: Argument, args: seq<string>, i: nat): Option<SlotValue> {
    match a
    case Required(_) => if i < |args| then Some(Value(args[i])) else None
    case Optional(_) => Some(if i < |args| then Value(args[i]) else Absent)
    case Default(_, d) => Some(Value(if i < |args| then args[i] else d))
    case Vararg(_) => if i <= |args| then Some(Values(args[i..])) else None
  }

  predicate Bindable(ps: seq<Argument>, args: seq<string>) {
    forall i | 0 <= i < |ps| :: BindSlot(ps[i], args, i).Some?
  }

  /** The binding frame of one call, or None when binding some slot throws. */
  function Bind(ps: seq<Argument>, args: seq<string>): (r: Option<Frame>)
    ensures r.Some? ==> |r.value| == |ps|
  {
    if Bindable(ps, args) then
      Some(seq(|ps|, i requires 0 <= i < |ps| && BindSlot(ps[i], args, i).Some? => BindSlot(ps[i], args, i).value))
    else None
  }

  /** The binding loop of `runCommand`: each slot in declaration order receives its value. */
  method BindFrame(ps: seq<Argument>, args: seq<string>) returns (r: Option<Frame>)
    ensures r == Bind(ps, args)
  {
    var frame: Frame := [];
    var i := 0;
    while i < |ps|
      invariant 0 <= i <= |ps|
      invariant |frame| == i
      invariant forall j | 0 <= j < i :: BindSlot(ps[j], args, j) == Some(frame[j])
    {
      var slot: SlotValue;
      match ps[i] {
        case Required(_) =>
        if i >= |args| {
          assert BindSlot(ps[i], args, i).None?;
          return None;
        }
        slot := Value(args[i]);
      case Optional(_) =>
        slot := if i < |args| then Value(args[i]) else Absent;
      case Default(_, d) =>
        slot := Value(if i < |args| then args[i] else d);
      case Vararg(_) =>
        if i > |args| {
          assert BindSlot(ps[i], args, i).None?;
          return None;
        }
        slot := Values(args[i..]);
      }
      frame := frame + [slot];
      i := i + 1;
    }
    assert Bindable(ps, args);
    assert frame == Bind(ps, args).value;
    r := Some(frame);
  }

  /**
   * Once the count checks have passed (at least `k` tokens), binding a well-shaped list throws
   * exactly when a Vararg sits after Optional/Default slots that were not all supplied; when
   * it succeeds, the Required slots hold the first `k` tokens, each supplied Optional/Default
   * slot holds the token at its position, an unsupplied Optional slot is absent and an
   * unsupplied Default slot holds its default, and the Vararg holds the tokens from its own
   * position on, possibly none.
   */
  lemma BindOutcome(ps: seq<Argument>, args: seq<string>)
    requires WellShaped(ps)
    requires CountRequired(ps) <= |args|
    ensures Bind(ps, args).None? <==> HasVararg(ps) && |args| < CountRequired(ps) + CountOptional(ps)
    ensures Bind(ps, args).Some? ==>
      && (forall i | 0 <= i < CountRequired(ps) :: Bind(ps, args).value[i] == Value(args[i]))
      && (forall i | CountRequired(ps) <= i < CountRequired(ps) + CountOptional(ps) && i < |args| :: Bind(ps, args).value[i] == Value(args[i]))
      && (forall i | |args| <= i < CountRequired(ps) + CountOptional(ps) ::
            Bind(ps, args).value[i] == if ps[i].Default? then Value(ps[i].defaultValue) else Absent)
      && (HasVararg(ps) ==> Bind(ps, args).value[|ps| - 1] == Values(args[CountRequired(ps) + CountOptional(ps)..]))
  {
    ShapeLayout(ps);
    var p := CountRequired(ps) + CountOptional(ps);
    if HasVararg(ps) && |args| < p {
      assert BindSlot(ps[p], args, p).None?;
    }
    if Bind(ps, args).Some? {
      BindFallbacks(ps, args);
    }
  }

  /** The Optional/Default slots of a successful binding: the token when supplied, else the fallback. */
  lemma BindFallbacks(ps: seq<Argument>, args: seq<string>)
    requires WellShaped(ps) && Bind(ps, args).Some?
    ensures forall i | CountRequired(ps) <= i < CountRequired(ps) + CountOptional(ps) && i < |args| ::
      Bind(ps, args).value[i] == Value(args[i])
    ensures forall i | |args| <= i < CountRequired(ps) + CountOptional(ps) ::
      Bind(ps, args).value[i] == if ps[i].Default? then Value(ps[i].defaultValue) else Absent
  {
    ShapeLayout(ps);
  }

  /** The tokens slot `i` of a frame took from a call with `n` tokens. */
  function SlotTokens(v: SlotValue, i: nat, n: nat): seq<string> {
    match v
    case Value(x) => if i < n then [x] else []
    case Absent => []
    case Values(xs) => xs
  }

  /** The tokens a frame took, slot by slot in order. */
  function Taken(f: Frame, n: nat): seq<string> {
    if |f| == 0 then [] else Taken(f[..|f| - 1], n) + SlotTokens(f[|f| - 1], |f| - 1, n)
  }

  lemma {:induction false} TakenBeforeVararg(ps: seq<Argument>, args: seq<string>, f: Frame, j: nat)
    requires Bind(ps, args) == Some(f)
    requires j <= |ps|
    requires forall i | 0 <= i < j :: !ps[i].Vararg?
    ensures Taken(f[..j], |args|) == args[..if j < |args| then j else |args|]
  {
    if j > 0 {
      TakenBeforeVararg(ps, args, f, j - 1);
      assert f[..j][..j - 1] == f[..j - 1];
      assert f[j - 1] == BindSlot(ps[j - 1], args, j - 1).value;
      if j - 1 < |args| {
        assert args[..j] == args[..j - 1] + [args[j - 1]];
      }
    }
  }

  /**
   * When the count checks pass and binding succeeds, every token is taken by exactly one
   * slot, in order: nothing is dropped and nothing is bound twice.
   */
  lemma BindTakesEveryToken(ps: seq<Argument>, args: seq<string>)
    requires WellShaped(ps)
    requires CountRequired(ps) <= |args|
    requires !HasVararg(ps) ==> |args| <= CountRequired(ps) + CountOptional(ps)
    requires Bind(ps, args).Some?
    ensures Taken(Bind(ps, args).value, |args|) == args
  {
    var f := Bind(ps, args).value;
    var n := |args|;
    var p := CountRequired(ps) + CountOptional(ps);
    assert |ps| == p + (if HasVararg(ps) then 1 else 0) && forall i | 0 <= i < p :: !ps[i].Vararg? by {
      ShapeLayout(ps);
    }
    assert HasVararg(ps) ==> p <= n && f[|ps| - 1] == Values(args[p..]) by {
      BindOutcome(ps, args);
    }
    TakenBeforeVararg(ps, args, f, p);
    if HasVararg(ps) {
      TakenThenVararg(f, args, p);
    } else {
      assert f[..p] == f;
      assert args[..n] == args;
    }
  }

  /** A frame whose last slot holds the tokens after the `p` taken before it takes every token. */
  lemma TakenThenVararg(f: Frame, args: seq<string>, p: nat)
    requires |f| == p + 1 && p <= |args|
    requires Taken(f[..p], |args|) == args[..p]
    requires f[p] == Values(args[p..])
    ensures Taken(f, |args|) == args
  {
    assert f[..|f| - 1] == f[..p];
    assert args == args[..p] + args[p..];
  }

  // ---------------------------------------------------------------- count messages and help

  /** The reply when fewer than `k` tokens were given (`n` of them). */
  function AtLeastMessage(k: nat, n: nat): string {
    "expected at least " + NatToString(k) + " argument(s), got " + NatToString(n)
  }

  /** The reply when more than `k` tokens were given to a command without a vararg. */
  function AtMostMessage(k: nat, n: nat): string {
    "expected at most " + NatToString(k) + " argument(s), got " + NatToString(n)
  }

  /**
   * `help(name)`: `Usage: ,name params`, after the help text and a space when there is one;
   * `params` is the slot list rendered by ParamsUsage.
   */
  function HelpText(help: Option<string>, name: string, params: string): string {
    var usage := "Usage: ," + name + " " + params;
    match help
    case Some(h) => h + " " + usage
    case None => usage
  }

  /**
   * The usage line can be read back: after `Usage: ,name ` come the slots' usage tokens
   * separated by single spaces, each decoding to its slot (for identifier names and default
   * values without spaces).
   */
  lemma HelpDescribesSlots(help: Option<string>, name: string, ps: seq<Argument>)
    requires |ps| > 0
    requires forall i | 0 <= i < |ps| :: IsIdentifier(ps[i].name)
    requires forall i | 0 <= i < |ps| :: ps[i].Default? ==> ' ' !in ps[i].defaultValue
    ensures var prefix := (if help.Some? then help.value + " " else "") + "Usage: ," + name + " ";
      && StartsWith(HelpText(help, name, ParamsUsage(ps)), prefix)
      && var tokens := Split(HelpText(help, name, ParamsUsage(ps))[|prefix|..], ' ');
      && |tokens| == |ps|
      && forall i | 0 <= i < |tokens| :: ParseUsage(tokens[i]) == ps[i]
  {
    HelpTextSuffix(help, name, ParamsUsage(ps));
    UsageListSpaceFree(ps);
    assert [' '] == " ";
    SplitJoin(UsageList(ps), ' ');
    UsageListRoundTrip(ps);
  }

  /** The help text is its prefix followed by the parameter list. */
  lemma HelpTextSuffix(help: Option<string>, name: string, params: string)
    ensures var prefix := (if help.Some? then help.value + " " else "") + "Usage: ," + name + " ";
      && StartsWith(HelpText(help, name, params), prefix)
      && HelpText(help, name, params)[|prefix|..] == params
  {
    var prefix := (if help.Some? then help.value + " " else "") + "Usage: ," + name + " ";
    assert HelpText(help, name, params) == prefix + params;
  }

  lemma UsageListSpaceFree(ps: seq<Argument>)
    requires forall i | 0 <= i < |ps| :: IsIdentifier(ps[i].name)
    requires forall i | 0 <= i < |ps| :: ps[i].Default? ==> ' ' !in ps[i].defaultValue
    ensures forall i | 0 <= i < |UsageList(ps)| :: ' ' !in UsageList(ps)[i]
  {
    forall i | 0 <= i < |ps| ensures ' ' !in UsageList(ps)[i] {
      NoSpaceInUsage(ps[i]);
    }
  }

  lemma UsageListRoundTrip(ps: seq<Argument>)
    requires forall i | 0 <= i < |ps| :: IsIdentifier(ps[i].name)
    ensures |UsageList(ps)| == |ps|
    ensures forall i | 0 <= i < |ps| :: ParseUsage(UsageList(ps)[i]) == ps[i]
  {
    forall i | 0 <= i < |ps| ensures ParseUsage(UsageList(ps)[i]) == ps[i] {
      UsageRoundTrip(ps[i]);
    }
  }

  lemma NoSpaceInUsage(a: Argument)
    requires IsIdentifier(a.name)
    requires a.Default? ==> ' ' !in a.defaultValue
    ensures ' ' !in Usage(a)
  {
    assert ' ' !in a.name by {
      forall i | 0 <= i < |a.name| ensures a.name[i] != ' ' {
        assert IsIdentifierChar(a.name[i]);
      }
    }
  }
}
