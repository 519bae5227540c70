/** Machine words, bitwise operations on them, and flat little-endian memory. */
module Words {

  const ADDRESS_SPACE := 0x1_0000_0000
  const PAGE_SIZE := 4096
  const MAX_INT := 0x7fff_ffff

  type byte = x: int | 0 <= x < 256
  type word = x: int | 0 <= x < ADDRESS_SPACE

  /** Unsigned 32-bit wrap-around. */
  function Wrap(x: int): word {
    x % ADDRESS_SPACE
  }

  /** Conversion to a signed 32-bit integer. */
  function Int32(x: int): int {
    (x + 0x8000_0000) % ADDRESS_SPACE - 0x8000_0000
  }

  /** As many rounds as a loop up to `count` makes. */
  function Rounds(count: int): nat {
    if count < 0 then 0 else count
  }

  // ---------------------------------------------------------------- bits

  /** Bitwise or. */
  function Or(x: nat, y: nat): nat {
    if x == 0 && y == 0 then 0
    else 2 * Or(x / 2, y / 2) + (if x % 2 == 1 || y % 2 == 1 then 1 else 0)
  }

  /** Bitwise and. */
  function And(x: nat, y: nat): nat {
    if x == 0 && y == 0 then 0
    else 2 * And(x / 2, y / 2) + (if x % 2 == 1 && y % 2 == 1 then 1 else 0)
  }

  lemma {:induction false} OrZero(x: nat)
    ensures Or(x, 0) == x
  {
    if x != 0 {
      OrZero(x / 2);
    }
  }

  lemma {:induction false} OrAtMostSum(x: nat, y: nat)
    ensures Or(x, y) == Or(y, x) <= x + y
  {
    if x != 0 || y != 0 {
      OrAtMostSum(x / 2, y / 2);
    }
  }

  lemma {:induction false} OrBelow(x: nat, y: nat, k: nat)
    requires x < Pow2(k) && y < Pow2(k)
    ensures Or(x, y) < Pow2(k)
  {
    if k > 0 {
      OrBelow(x / 2, y / 2, k - 1);
    }
  }

  /** Bitwise or of two machine words. */
  function OrWord(x: word, y: word): word {
    Wrap(Or(x, y))
  }

  /** It never leaves 32 bits. */
  lemma OrWordIsOr(x: word, y: word)
    ensures OrWord(x, y) == Or(x, y)
  {
    Pow2At32();
    OrBelow(x, y, 32);
  }

  lemma Or4(x: nat, y: nat)
    ensures Or(x, y) / 4 == Or(x / 4, y / 4)
  {
    assert Or(x, y) / 2 == Or(x / 2, y / 2);
    assert Or(x / 2, y / 2) / 2 == Or(x / 4, y / 4);
  }

  lemma Or16(x: nat, y: nat)
    ensures Or(x, y) / 16 == Or(x / 16, y / 16)
  {
    Or4(x, y);
    Or4(x / 4, y / 4);
    assert x / 4 / 4 == x / 16 && y / 4 / 4 == y / 16 && Or(x, y) / 4 / 4 == Or(x, y) / 16;
  }

  lemma And16(x: nat, z: nat)
    ensures And(x, 16 * z) == 16 * And(x / 16, z)
  {
    assert And(x, 16 * z) == 2 * And(x / 2, 8 * z);
    assert And(x / 2, 8 * z) == 2 * And(x / 4, 4 * z);
    assert And(x / 4, 4 * z) == 2 * And(x / 8, 2 * z);
    assert And(x / 8, 2 * z) == 2 * And(x / 16, z);
  }

  lemma DivideInSteps(x: nat)
    ensures x / PAGE_SIZE == x / 16 / 16 / 16
  {
  }

  /** Flags below bit 12 never disturb the page number they are or-ed into. */
  lemma OrKeepsPage(x: nat, flags: nat)
    requires flags < PAGE_SIZE
    ensures Or(x, flags) / PAGE_SIZE == x / PAGE_SIZE
  {
    Or16(x, flags);
    Or16(x / 16, flags / 16);
    Or16(x / 16 / 16, flags / 16 / 16);
    OrZero(x / 16 / 16 / 16);
    DivideInSteps(x);
    DivideInSteps(flags);
    DivideInSteps(Or(x, flags));
  }

  lemma Halved(n: nat, half: nat, odd: bool)
    requires n == 2 * half + if odd then 1 else 0
    ensures n / 2 == half && (n % 2 == 1 <==> odd)
  {
  }

  lemma OrStep(x: nat, y: nat)
    ensures Or(x, y) / 2 == Or(x / 2, y / 2)
    ensures Or(x, y) % 2 == 1 <==> x % 2 == 1 || y % 2 == 1
  {
    if x == 0 && y == 0 {
    } else {
      Halved(Or(x, y), Or(x / 2, y / 2), x % 2 == 1 || y % 2 == 1);
    }
  }

  /** The three lowest bits of an or. */
  lemma OrFlags(x: nat, y: nat)
    ensures var r := Or(x, y);
      && (r % 2 == 1 <==> x % 2 == 1 || y % 2 == 1)
      && (r / 2 % 2 == 1 <==> x / 2 % 2 == 1 || y / 2 % 2 == 1)
      && (r / 2 / 2 % 2 == 1 <==> x / 2 / 2 % 2 == 1 || y / 2 / 2 % 2 == 1)
  {
    OrStep(x, y);
    OrStep(x / 2, y / 2);
    OrStep(x / 2 / 2, y / 2 / 2);
  }

  lemma And4096(x: nat, z: nat)
    ensures And(x, PAGE_SIZE * z) == PAGE_SIZE * And(x / PAGE_SIZE, z)
  {
    var y := 16 * z;
    var u := 16 * y;
    And16(x, u);
    And16(x / 16, y);
    And16(x / 16 / 16, z);
    DivideInSteps(x);
    assert And(x, 16 * u) == 16 * (16 * (16 * And(x / 16 / 16 / 16, z)));
  }

  function Pow2(k: nat): nat {
    if k == 0 then 1 else 2 * Pow2(k - 1)
  }

  lemma Pow2Step(k: nat)
    ensures Pow2(k + 4) == 16 * Pow2(k)
  {
    assert Pow2(k + 4) == 2 * Pow2(k + 3);
    assert Pow2(k + 2) == 2 * Pow2(k + 1);
  }

  lemma Pow2At32()
    ensures Pow2(20) == 0x10_0000 && Pow2(32) == ADDRESS_SPACE
  {
    Pow2Step(0);
    Pow2Step(4);
    Pow2Step(8);
    Pow2Step(12);
    Pow2Step(16);
    Pow2Step(20);
    Pow2Step(24);
    Pow2Step(28);
  }

  lemma {:induction false} AndOnes(x: nat, k: nat)
    requires x < Pow2(k)
    ensures And(x, Pow2(k) - 1) == x
  {
    if k > 0 {
      AndOnes(x / 2, k - 1);
      assert (Pow2(k) - 1) / 2 == Pow2(k - 1) - 1;
    }
  }

  /** The address part of a directory word, `w & 0xfffff000`, is the page it points to. */
  lemma PageMask(w: word, mask: nat)
    requires mask == 0xfffff000
    ensures And(w, mask) == w - w % PAGE_SIZE
  {
    var pages: nat := 0xfffff;
    Pow2At32();
    And4096(w, pages);
    AndOnes(w / PAGE_SIZE, 20);
  }

  // ---------------------------------------------------------------- memory

  /** `s` with `xs` written over it at `at`. */
  function Splice(s: seq<byte>, at: nat, xs: seq<byte>): (r: seq<byte>)
    requires at + |xs| <= |s|
    ensures |r| == |s|
    ensures forall k | 0 <= k < |s| :: r[k] == if at <= k < at + |xs| then xs[k - at] else s[k]
  {
    s[..at] + xs + s[at + |xs|..]
  }

  lemma SliceOfSlice(s: seq<byte>, a: nat, b: nat, c: nat, d: nat)
    requires a <= b <= |s| && c <= d <= b - a
    ensures s[a..b][c..d] == s[a + c..a + d]
  {
    var t := s[a..b];
    assert forall i | 0 <= i < d - c :: t[c..d][i] == s[a + c..a + d][i];
  }

  lemma SliceOfDrop(s: seq<byte>, a: nat, b: nat, c: nat)
    requires b <= c && a + c <= |s|
    ensures s[a..][b..c] == s[a + b..a + c]
  {
  }

  function Zeros(n: nat): (r: seq<byte>)
    ensures |r| == n && forall k | 0 <= k < n :: r[k] == 0
  {
    seq(n, _ => 0)
  }

  function FromDigits(b0: byte, b1: byte, b2: byte, b3: byte): (w: word) {
    b0 as int + 0x100 * b1 as int + 0x1_0000 * b2 as int + 0x100_0000 * b3 as int
  }

  function Digits(w: word): (r: seq<byte>)
    ensures |r| == 4
  {
    [w % 0x100, w / 0x100 % 0x100, w / 0x1_0000 % 0x100, w / 0x100_0000]
  }

  lemma DigitsRoundTrip(w: word)
    ensures var d := Digits(w); FromDigits(d[0], d[1], d[2], d[3]) == w
  {
    var a, b := w / 0x100, w / 0x1_0000;
    assert a / 0x100 == b && b / 0x100 == w / 0x100_0000;
  }

  /** The `i`-th little-endian word of a memory. */
  function WordAt(s: seq<byte>, i: nat): word
    requires i < |s| / 4
  {
    if i == 0 then FromDigits(s[0], s[1], s[2], s[3]) else WordAt(s[4..], i - 1)
  }

  lemma {:induction false} WordDigits(s: seq<byte>, i: nat)
    requires i < |s| / 4
    ensures WordAt(s, i) == FromDigits(s[4 * i], s[4 * i + 1], s[4 * i + 2], s[4 * i + 3])
  {
    if i > 0 {
      WordDigits(s[4..], i - 1);
    }
  }

  /** Memory read as little-endian words. */
  function AsWords(s: seq<byte>): (w: seq<word>)
    ensures |w| == |s| / 4
  {
    seq(|s| / 4, i requires 0 <= i < |s| / 4 => WordAt(s, i))
  }

  lemma DigitsDetermined(b0: byte, b1: byte, b2: byte, b3: byte, c0: byte, c1: byte, c2: byte, c3: byte)
    requires FromDigits(b0, b1, b2, b3) == FromDigits(c0, c1, c2, c3)
    ensures b0 == c0 && b1 == c1 && b2 == c2 && b3 == c3
  {
    var b, c := b2 as int + 0x100 * b3 as int, c2 as int + 0x100 * c3 as int;
    assert b1 as int + 0x100 * b == c1 as int + 0x100 * c;
  }

  lemma SameBytesSameWord(s: seq<byte>, t: seq<byte>, i: nat)
    requires i < |s| / 4 && |t| == |s|
    requires forall k | 4 * i <= k < 4 * i + 4 :: s[k] == t[k]
    ensures AsWords(s)[i] == AsWords(t)[i]
  {
    WordDigits(s, i);
    WordDigits(t, i);
  }

  lemma SameWordSameBytes(s: seq<byte>, t: seq<byte>, i: nat)
    requires i < |s| / 4 && |t| == |s|
    requires AsWords(s)[i] == AsWords(t)[i]
    ensures forall k | 4 * i <= k < 4 * i + 4 :: s[k] == t[k]
  {
    WordDigits(s, i);
    WordDigits(t, i);
    DigitsDetermined(s[4 * i], s[4 * i + 1], s[4 * i + 2], s[4 * i + 3],
                     t[4 * i], t[4 * i + 1], t[4 * i + 2], t[4 * i + 3]);
  }

  lemma StoredWord(s: seq<byte>, i: nat, w: word)
    requires i < |s| / 4
    ensures AsWords(Splice(s, 4 * i, Digits(w)))[i] == w
  {
    WordDigits(Splice(s, 4 * i, Digits(w)), i);
    DigitsRoundTrip(w);
  }

  /** Storing the digits of a word at an aligned address replaces exactly that word. */
  lemma StoringAWord(s: seq<byte>, i: nat, w: word)
    requires i < |s| / 4
    ensures AsWords(Splice(s, 4 * i, Digits(w))) == AsWords(s)[i := w]
  {
    var t := Splice(s, 4 * i, Digits(w));
    forall j | 0 <= j < |s| / 4 && j != i
      ensures AsWords(t)[j] == AsWords(s)[j]
    {
      SameBytesSameWord(s, t, j);
    }
    StoredWord(s, i, w);
  }

  method StoreWord(mem: array<byte>, at: nat, w: word)
    requires at % 4 == 0 && at + 4 <= mem.Length
    modifies mem
    ensures mem[..] == Splice(old(mem[..]), at, Digits(w))
    ensures AsWords(mem[..]) == AsWords(old(mem[..]))[at / 4 := w]
  {
    StoringAWord(mem[..], at / 4, w);
    mem[at] := w % 0x100;
    mem[at + 1] := w / 0x100 % 0x100;
    mem[at + 2] := w / 0x1_0000 % 0x100;
    mem[at + 3] := w / 0x100_0000;
    assert mem[..] == Splice(old(mem[..]), at, Digits(w));
  }

  method LoadWord(mem: array<byte>, at: nat) returns (w: word)
    requires at % 4 == 0 && at + 4 <= mem.Length
    ensures w == AsWords(mem[..])[at / 4]
  {
    WordDigits(mem[..], at / 4);
    w := FromDigits(mem[at], mem[at + 1], mem[at + 2], mem[at + 3]);
  }

  /** C's `memset(ptr, 0, size)`. */
  method ZeroFill(mem: array<byte>, at: nat, size: nat)
    requires at + size <= mem.Length
    modifies mem
    ensures mem[..] == Splice(old(mem[..]), at, Zeros(size))
  {
    for i := 0 to size
      invariant forall k | 0 <= k < mem.Length :: mem[k] == if at <= k < at + i then 0 else old(mem[k])
    {
      mem[at + i] := 0;
    }
  }
}
