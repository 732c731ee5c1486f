/*
 * Go strings as the server sees them: immutable sequences of bytes, and the
 * handful of functions from Go's `strings` package that the request path uses
 * (TrimLeft, HasSuffix, TrimSuffix, Split).  Join is not called by the server;
 * it is the reference inverse against which Split is specified.
 */
module Strings {

  newtype byte = b: int | 0 <= b < 256

  /** A Go string: a sequence of bytes. */
  type Str = seq<byte>

  const LF: byte := 0x0a
  const Space: byte := 0x20
  const Slash: byte := 0x2f

  function Min(a: int, b: int): int {
    if a <= b then a else b
  }

  /** The bytes of an ASCII/Latin-1 literal. */
  function Ascii(s: string): (r: Str)
    requires forall i | 0 <= i < |s| :: s[i] as int < 256
    ensures |r| == |s|
  {
    seq(|s|, i requires 0 <= i < |s| => s[i] as int as byte)
  }

  /** `n` copies of the byte `c`. */
  function Repeat(c: byte, n: nat): (r: Str)
    ensures |r| == n && forall i | 0 <= i < n :: r[i] == c
  {
    if n == 0 then [] else [c] + Repeat(c, n - 1)
  }

  /** strings.TrimLeft(s, string(c)): removes EVERY leading `c`, not just one.
      The result is the suffix of `s` left after the longest run of `c`. */
  function TrimLeft(s: Str, c: byte): (r: Str)
    ensures |r| <= |s| && r == s[|s| - |r|..]
    ensures r == [] || r[0] != c
    ensures forall i | 0 <= i < |s| - |r| :: s[i] == c
  {
    if s != [] && s[0] == c then TrimLeft(s[1..], c) else s
  }

  /** Whatever run of `c` precedes `t`, TrimLeft gives back `t` when `t` does
      not itself start with `c`. */
  lemma {:induction false} TrimLeftRun(c: byte, n: nat, t: Str)
    requires t == [] || t[0] != c
    ensures TrimLeft(Repeat(c, n) + t, c) == t
  {
    if n > 0 {
      var s := Repeat(c, n) + t;
      var rest := Repeat(c, n - 1);
      assert Repeat(c, n) == [c] + rest;
      assert s == [c] + (rest + t);
      TrimLeftRun(c, n - 1, t);
    } else {
      assert Repeat(c, 0) == [];
      assert Repeat(c, n) + t == t;
    }
  }

  /** A byte other than `c` that `t` lacks is absent after a run of `c` too. */
  lemma NotInRun(b: byte, c: byte, n: nat, t: Str)
    requires b != c && b !in t
    ensures b !in Repeat(c, n) + t
  {
    var s := Repeat(c, n) + t;
    forall i | n <= i < |s|
      ensures s[i] != b
    {
      assert s[i] == t[i - n];
    }
  }

  /** Trimming twice trims nothing more. */
  lemma TrimLeftIdempotent(s: Str, c: byte)
    ensures TrimLeft(TrimLeft(s, c), c) == TrimLeft(s, c)
  {
    var r := TrimLeft(s, c);
    assert r == Repeat(c, 0) + r;
    TrimLeftRun(c, 0, r);
  }

  /** strings.HasPrefix */
  predicate HasPrefix(s: Str, prefix: Str) {
    |prefix| <= |s| && s[..|prefix|] == prefix
  }

  /** strings.IndexByte, with |s| in place of -1 when `b` does not occur:
      the position of the first `b`. */
  function FirstIndex(s: Str, b: byte): (k: nat)
    ensures k <= |s| && b !in s[..k]
    ensures k < |s| ==> s[k] == b
  {
    if s == [] || s[0] == b then 0 else 1 + FirstIndex(s[1..], b)
  }

  /** The first `b` of `a + t` is the first byte of `t` when `a` has none. */
  lemma FirstIndexAfter(a: Str, t: Str, b: byte)
    requires b !in a && t != [] && t[0] == b
    ensures FirstIndex(a + t, b) == |a|
  {
    var s := a + t;
    assert s[|a|] == b;
    assert s[..|a|] == a;
  }

  /** strings.HasSuffix: `s` is something followed by `suffix`. */
  predicate HasSuffix(s: Str, suffix: Str)
    ensures HasSuffix(s, suffix) ==> |suffix| <= |s| && s == s[..|s| - |suffix|] + suffix
  {
    |suffix| <= |s| && s[|s| - |suffix|..] == suffix
  }

  /** strings.TrimSuffix: drops one copy of `suffix` if `s` ends with it. */
  function TrimSuffix(s: Str, suffix: Str): (r: Str)
    ensures HasSuffix(s, suffix) ==> r + suffix == s
    ensures !HasSuffix(s, suffix) ==> r == s
  {
    if HasSuffix(s, suffix) then s[..|s| - |suffix|] else s
  }

  /** strings.Join(tokens, string(sep)). */
  function Join(tokens: seq<Str>, sep: byte): Str {
    if |tokens| == 0 then []
    else if |tokens| == 1 then tokens[0]
    else tokens[0] + [sep] + Join(tokens[1..], sep)
  }

  /** strings.Split(s, string(sep)): the pieces of `s` between the separators.
      There is always at least one piece (Split of "" is [""]), no piece holds
      the separator, and joining the pieces back gives `s`. */
  function Split(s: Str, sep: byte): (tokens: seq<Str>)
    ensures |tokens| >= 1
    ensures forall k | 0 <= k < |tokens| :: sep !in tokens[k]
    ensures Join(tokens, sep) == s
  {
    if s == [] then [[]]
    else
      var rest := Split(s[1..], sep);
      if s[0] == sep then
        assert s == [sep] + s[1..];
        [[]] + rest
      else
        var tokens := [[s[0]] + rest[0]] + rest[1..];
        assert tokens[1..] == rest[1..];
        assert s == [s[0]] + s[1..];
        tokens
  }

  /** The piece before the first separator is split off, the rest is split on. */
  lemma {:induction false} SplitAfterToken(a: Str, sep: byte, b: Str)
    requires sep !in a
    ensures Split(a + [sep] + b, sep) == [a] + Split(b, sep)
  {
    if a == [] {
      assert a + [sep] + b == [sep] + b;
      assert ([sep] + b)[1..] == b;
    } else {
      var s := a + [sep] + b;
      assert s[1..] == a[1..] + [sep] + b;
      assert s[0] == a[0] && a == [a[0]] + a[1..];
      SplitAfterToken(a[1..], sep, b);
    }
  }

  /** The first two pieces of "a<sep>b<rest>", where `rest` is empty or
      starts with the separator, are `a` and `b`. */
  lemma SplitFirstTwo(a: Str, b: Str, rest: Str, sep: byte)
    requires sep !in a && sep !in b
    requires rest == [] || rest[0] == sep
    ensures var tokens := Split(a + [sep] + b + rest, sep);
      |tokens| >= 2 && tokens[0] == a && tokens[1] == b
  {
    var after := b + rest;
    assert a + [sep] + b + rest == a + [sep] + after;
    SplitAfterToken(a, sep, after);
    if rest == [] {
      SplitWithoutSeparator(b, sep);
      assert after == b;
    } else {
      assert after == b + [sep] + rest[1..];
      SplitAfterToken(b, sep, rest[1..]);
    }
  }

  /** A string without the separator splits into itself alone. */
  lemma {:induction false} SplitWithoutSeparator(s: Str, sep: byte)
    requires sep !in s
    ensures Split(s, sep) == [s]
  {
    if s != [] {
      SplitWithoutSeparator(s[1..], sep);
      assert s == [s[0]] + s[1..];
    }
  }

  /** Split inverts Join on separator-free pieces. */
  lemma {:induction false} SplitJoin(tokens: seq<Str>, sep: byte)
    requires |tokens| >= 1
    requires forall k | 0 <= k < |tokens| :: sep !in tokens[k]
    ensures Split(Join(tokens, sep), sep) == tokens
  {
    if |tokens| == 1 {
      SplitWithoutSeparator(tokens[0], sep);
    } else {
      SplitJoin(tokens[1..], sep);
      SplitAfterToken(tokens[0], sep, Join(tokens[1..], sep));
      assert tokens == [tokens[0]] + tokens[1..];
    }
  }

  /** Split yields a single piece exactly when the separator does not occur. */
  lemma {:induction false} SplitSingleIff(s: Str, sep: byte)
    ensures |Split(s, sep)| == 1 <==> sep !in s
  {
    if s != [] {
      SplitSingleIff(s[1..], sep);
      assert s == [s[0]] + s[1..];
      assert sep in s <==> s[0] == sep || sep in s[1..];
    }
  }
}
