/** Character classes and string helpers shared by the tokenizers and the reply builders. */
module Text {
  import opened Wrappers

  /**
   * Java's regular-expression class `\s`: space, and tab, line feed, vertical tab, form feed
   * and carriage return (the consecutive code points 9 to 13).
   */
  predicate IsSpace(c: char) {
    c == ' ' || c == '\t' || c == '\n' || c == '\U{B}' || c == '\U{C}' || c == '\r'
  }

  /** No character of `s` is in `\s`. */
  predicate NoSpace(s: string) {
    forall i | 0 <= i < |s| :: !IsSpace(s[i])
  }

  predicate StartsWith(s: string, prefix: string) {
    |prefix| <= |s| && s[..|prefix|] == prefix
  }

  /** Kotlin's `joinToString(separator)`. */
  function Join(parts: seq<string>, separator: string): string
  {
    if |parts| == 0 then ""
    else if |parts| == 1 then parts[0]
    else parts[0] + separator + Join(parts[1..], separator)
  }

  /** The first index of `c` in `s`, if any. */
  function IndexOf(s: string, c: char): (r: Option<nat>)
    ensures r.Some? ==> r.value < |s| && s[r.value] == c
  {
    if |s| == 0 then None
    else if s[0] == c then Some(0)
    else match IndexOf(s[1..], c)
      case None => None
      case Some(k) => Some(k + 1)
  }

  /** The index found is the first occurrence, and there is none when nothing is found. */
  lemma {:induction false} IndexOfSpec(s: string, c: char)
    ensures IndexOf(s, c).Some? ==> c !in s[..IndexOf(s, c).value]
    ensures IndexOf(s, c).None? ==> c !in s
  {
    if |s| > 0 && s[0] != c {
      IndexOfSpec(s[1..], c);
      if IndexOf(s[1..], c).Some? {
        var k := IndexOf(s[1..], c).value;
        assert s[..k + 1] == [s[0]] + s[1..][..k];
      }
    }
  }

  /** The first `c` after `c`-free text is right after that text. */
  lemma {:induction false} IndexOfAfter(a: string, c: char, b: string)
    requires c !in a
    ensures IndexOf(a + [c] + b, c) == Some(|a|)
  {
    if |a| > 0 {
      assert (a + [c] + b)[1..] == a[1..] + [c] + b;
      IndexOfAfter(a[1..], c, b);
    }
  }

  /** A character that does not occur is not found. */
  lemma IndexOfAbsent(s: string, c: char)
    requires c !in s
    ensures IndexOf(s, c).None?
  {
  }

  /** Kotlin's `split(" ")` with a one-character delimiter: every part kept, empty ones too. */
  function Split(s: string, delimiter: char): (parts: seq<string>)
    ensures |parts| >= 1
    ensures forall i | 0 <= i < |parts| :: delimiter !in parts[i]
    decreases |s|
  {
    IndexOfSpec(s, delimiter);
    match IndexOf(s, delimiter)
    case None => [s]
    case Some(k) => [s[..k]] + Split(s[k + 1..], delimiter)
  }

  /** Joining the parts with the delimiter gives back the string that was split. */
  lemma {:induction false} JoinSplit(s: string, delimiter: char)
    ensures Join(Split(s, delimiter), [delimiter]) == s
    decreases |s|
  {
    match IndexOf(s, delimiter)
    case None =>
    case Some(k) =>
      var parts := Split(s, delimiter);
      var tail := Split(s[k + 1..], delimiter);
      assert parts == [s[..k]] + tail;
      assert parts[1..] == tail;
      assert Join(parts, [delimiter]) == s[..k] + [delimiter] + Join(tail, [delimiter]);
      JoinSplit(s[k + 1..], delimiter);
      assert s == s[..k] + [delimiter] + s[k + 1..];
  }

  /** Splitting a join of delimiter-free parts gives back the parts. */
  lemma {:induction false} SplitJoin(parts: seq<string>, delimiter: char)
    requires |parts| >= 1
    requires forall i | 0 <= i < |parts| :: delimiter !in parts[i]
    ensures Split(Join(parts, [delimiter]), delimiter) == parts
  {
    if |parts| > 1 {
      var s := Join(parts, [delimiter]);
      var rest := Join(parts[1..], [delimiter]);
      SplitJoin(parts[1..], delimiter);
      assert s == parts[0] + [delimiter] + rest;
      assert s[|parts[0]|] == delimiter;
      assert s[..|parts[0]|] == parts[0];
      IndexOfAfter(parts[0], delimiter, rest);
      assert s[|parts[0]| + 1..] == rest;
    }
  }
}
