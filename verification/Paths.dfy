/** Absolute paths such as `0:/a/b`: what the parser accepts and the components it finds. */
module Paths {
  import opened Words

  const MAX_PATH := 108
  const SLASH: byte := 47
  const COLON: byte := 58

  type CString = s: seq<byte> | forall i | 0 <= i < |s| :: s[i] != 0

  predicate IsDigit(c: byte) {
    48 <= c <= 57
  }

  predicate ValidFormat(s: CString) {
    |s| >= 3 && IsDigit(s[0]) && s[1] == COLON && s[2] == SLASH
  }

  /** What the parser accepts. */
  predicate Accepted(s: CString) {
    |s| <= MAX_PATH && ValidFormat(s)
  }

  /** A digit, a colon and a slash, and then anything: 48 to 57 are the digits, 58 the colon, 47 the slash. */
  predicate DriveAndRest(s: CString, digit: nat, rest: seq<byte>) {
    digit < 10 && s == [48 + digit, 58, 47] + rest
  }

  /** Just that is accepted, up to 108 characters. */
  lemma AcceptedIff(s: CString)
    ensures Accepted(s) <==> |s| <= 108 && exists digit: nat, rest: seq<byte> :: DriveAndRest(s, digit, rest)
  {
    if Accepted(s) {
      assert s == s[..3] + s[3..] && s[..3] == [s[0], s[1], s[2]];
      assert DriveAndRest(s, s[0] - 48, s[3..]);
    }
  }

  /** The length of the component that `s` starts with. */
  function ComponentLength(s: seq<byte>): (n: nat)
    ensures n <= |s| && (n < |s| ==> s[n] == SLASH) && SLASH !in s[..n]
  {
    if s == [] || s[0] == SLASH then 0 else 1 + ComponentLength(s[1..])
  }

  /** The component that `s` starts with. */
  function Component(s: seq<byte>): (c: seq<byte>)
    ensures |c| == ComponentLength(s)
  {
    s[..ComponentLength(s)]
  }

  /** What follows that component and its slash. */
  function AfterComponent(s: seq<byte>): (r: seq<byte>)
    ensures s != [] ==> |r| < |s|
  {
    var n := ComponentLength(s);
    if n < |s| then s[n + 1..] else []
  }

  /** The components the parser keeps: it stops for good at the first empty one. */
  function Parts(s: seq<byte>): seq<seq<byte>>
    decreases |s|
  {
    if ComponentLength(s) == 0 then [] else [Component(s)] + Parts(AfterComponent(s))
  }

  /** All components between slashes, empty ones included. */
  function Split(s: seq<byte>): (r: seq<seq<byte>>)
    ensures r != []
    decreases |s|
  {
    var n := ComponentLength(s);
    if n < |s| then [s[..n]] + Split(s[n + 1..]) else [s]
  }

  /** Components joined by slashes. */
  function JoinSlash(ps: seq<seq<byte>>): seq<byte> {
    if ps == [] then [] else if |ps| == 1 then ps[0] else ps[0] + [SLASH] + JoinSlash(ps[1..])
  }

  lemma AroundSlash(s: seq<byte>, n: nat)
    requires n < |s| && s[n] == SLASH
    ensures s == s[..n] + [SLASH] + s[n + 1..]
  {
  }

  /** `Split` and `JoinSlash` are inverse: nothing of the path is lost between the two. */
  lemma {:induction false} SplitThenJoin(s: seq<byte>)
    ensures JoinSlash(Split(s)) == s
    ensures forall i | 0 <= i < |Split(s)| :: SLASH !in Split(s)[i]
    decreases |s|
  {
    var n := ComponentLength(s);
    if n < |s| {
      SplitThenJoin(s[n + 1..]);
      AroundSlash(s, n);
    } else {
      assert s[..n] == s;
    }
  }

  lemma OneLonger(p: seq<byte>, parts: seq<seq<byte>>, all: seq<seq<byte>>)
    requires parts <= all
    ensures [p] + parts <= [p] + all && (|parts| < |all| ==> ([p] + all)[|[p] + parts|] == all[|parts|])
    ensures forall i | 0 <= i < |[p] + parts| :: ([p] + parts)[i] == if i == 0 then p else parts[i - 1]
  {
  }

  /** The parser's components are the longest run of non-empty components that the path starts with. */
  lemma {:induction false} PartsAreLongestPrefix(s: seq<byte>)
    ensures Parts(s) <= Split(s)
    ensures forall i | 0 <= i < |Parts(s)| :: Parts(s)[i] != [] && SLASH !in Parts(s)[i]
    ensures |Parts(s)| < |Split(s)| ==> Split(s)[|Parts(s)|] == []
    decreases |s|
  {
    var n := ComponentLength(s);
    if n == 0 {
      if s != [] {
        assert s[..0] == [];
      }
    } else if n < |s| {
      PartsAreLongestPrefix(AfterComponent(s));
      OneLonger(s[..n], Parts(AfterComponent(s)), Split(AfterComponent(s)));
    } else {
      assert s[..n] == s && AfterComponent(s) == [] && Parts([]) == [];
    }
  }

  predicate Name(p: seq<byte>) {
    p != [] && SLASH !in p && 0 !in p
  }

  lemma {:induction false} ComponentOf(p: seq<byte>, rest: seq<byte>)
    requires SLASH !in p && (rest == [] || rest[0] == SLASH)
    ensures ComponentLength(p + rest) == |p|
  {
    if p == [] {
      assert p + rest == rest;
    } else {
      assert (p + rest)[1..] == p[1..] + rest;
      ComponentOf(p[1..], rest);
    }
  }

  lemma {:induction false} PartsOfJoin(ps: seq<seq<byte>>)
    requires forall i | 0 <= i < |ps| :: Name(ps[i])
    ensures Parts(JoinSlash(ps)) == ps
  {
    if |ps| == 1 {
      ComponentOf(ps[0], []);
      assert ps[0] + [] == ps[0] && ps[0][..|ps[0]|] == ps[0];
      assert Parts([]) == [];
    } else if |ps| > 1 {
      var rest := [SLASH] + JoinSlash(ps[1..]);
      ComponentOf(ps[0], rest);
      assert JoinSlash(ps) == ps[0] + rest;
      assert AfterComponent(JoinSlash(ps)) == JoinSlash(ps[1..]);
      PartsOfJoin(ps[1..]);
    }
  }

  /** A drive and components, printed. */
  function Print(drive: nat, ps: seq<seq<byte>>): (s: seq<byte>)
    requires drive <= 9
  {
    [48 + drive, COLON, SLASH] + JoinSlash(ps)
  }

  lemma {:induction false} JoinHasNoZero(ps: seq<seq<byte>>)
    requires forall i | 0 <= i < |ps| :: Name(ps[i])
    ensures 0 !in JoinSlash(ps)
  {
    if ps != [] {
      JoinHasNoZero(ps[1..]);
    }
  }

  /** Printing a drive and proper names and parsing the result gives them back, as long as the text is
      within the length bound. */
  lemma PrintThenParse(drive: nat, ps: seq<seq<byte>>)
    requires drive <= 9 && forall i | 0 <= i < |ps| :: Name(ps[i])
    ensures forall i | 0 <= i < |Print(drive, ps)| :: Print(drive, ps)[i] != 0
    ensures var s: CString := Print(drive, ps);
      && (Accepted(s) <==> |s| <= MAX_PATH)
      && ValidFormat(s) && s[0] - 48 == drive && Parts(s[3..]) == ps
  {
    JoinHasNoZero(ps);
    PartsOfJoin(ps);
    assert Print(drive, ps)[3..] == JoinSlash(ps);
  }

  /** No component of a C string contains the terminator. */
  lemma {:induction false} PartsHaveNoZero(s: seq<byte>)
    requires 0 !in s
    ensures forall i | 0 <= i < |Parts(s)| :: 0 !in Parts(s)[i]
    decreases |s|
  {
    if ComponentLength(s) > 0 {
      PartsHaveNoZero(AfterComponent(s));
    }
  }
}
