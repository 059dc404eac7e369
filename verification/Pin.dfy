/** The PIN itself (`src/crypto/pin.rs`): checksum, generation, and what happens to one that is typed in. */
module Pin {
  import opened Common

  const PIN_LENGTH := 10
  const PIN_GROUP_LENGTH := 5
  const PIN_CHARSET: string := "0123456789ABCDEFGHJKMNPQRSTVWXYZ"

  predicate IsSymbol(c: char) {
    c in PIN_CHARSET
  }

  function Symbol(v: nat): (c: char)
    requires v < 32
    ensures IsSymbol(c)
  {
    PIN_CHARSET[v]
  }

  predicate InCharset(s: string) {
    forall i | 0 <= i < |s| :: IsSymbol(s[i])
  }

  /** The character code of each symbol: the alphabet runs upwards and skips I, L, O and U. */
  function Code(v: nat): nat {
    if v < 10 then '0' as nat + v
    else 'A' as nat + (v - 10) + if v < 18 then 0 else if v < 20 then 1 else if v < 22 then 2 else if v < 27 then 3 else 4
  }

  lemma SymbolCode(v: nat)
    requires v < 32
    ensures Symbol(v) as nat == Code(v)
  {}

  lemma Place(c: char) returns (v: nat)
    requires IsSymbol(c)
    ensures v < 32 && Symbol(v) == c
  {
    v :| 0 <= v < 32 && PIN_CHARSET[v] == c;
  }

  lemma SymbolRanges(c: char)
    ensures IsSymbol(c) <==> '0' <= c <= '9' || ('A' <= c <= 'Z' && c != 'I' && c != 'L' && c != 'O' && c != 'U')
  {
    hide IsSymbol, Symbol;
    if IsSymbol(c) {
      var v := Place(c);
      SymbolCode(v);
    }
    if '0' <= c <= '9' || ('A' <= c <= 'Z' && c != 'I' && c != 'L' && c != 'O' && c != 'U') {
      var n := c as nat;
      var v := if c <= '9' then n - 48 else if c < 'I' then n - 55 else if c < 'L' then n - 56
               else if c < 'O' then n - 57 else if c < 'U' then n - 58 else n - 59;
      SymbolCode(v);
      assert Symbol(v) == c;
    }
  }

  lemma SymbolsAreOrdered(i: nat, j: nat)
    requires i < j < 32
    ensures Symbol(i) < Symbol(j)
  {
    hide Symbol;
    SymbolCode(i);
    SymbolCode(j);
  }

  /** The place of a character in the alphabet. */
  function PositionFrom(c: char, k: nat): (r: Option<nat>)
    requires k <= 32 && forall v: nat | v < k :: Symbol(v) != c
    decreases 32 - k
    ensures r.None? <==> !IsSymbol(c)
    ensures r.Some? ==> r.value < 32 && Symbol(r.value) == c
  {
    if k == 32 then NotASymbol(c); None
    else if Symbol(k) == c then Some(k)
    else PositionFrom(c, k + 1)
  }

  lemma NotASymbol(c: char)
    requires forall v: nat | v < 32 :: Symbol(v) != c
    ensures !IsSymbol(c)
  {
    forall v: nat | v < 32 ensures PIN_CHARSET[v] != c {
      assert Symbol(v) != c;
    }
  }

  function Value(c: char): (v: nat)
    requires IsSymbol(c)
    ensures v < 32 && Symbol(v) == c
  {
    PositionFrom(c, 0).value
  }

  lemma ValueOfSymbol(v: nat)
    requires v < 32
    ensures Value(Symbol(v)) == v
  {
    hide *;
    var w := Value(Symbol(v));
    if w < v {
      SymbolsAreOrdered(w, v);
    } else if v < w {
      SymbolsAreOrdered(v, w);
    }
  }

  // ---------- Checksum

  function Weighted(c: char, i: nat): int
    requires IsSymbol(c)
  {
    Value(c) * (2 * i + 1)
  }

  function WeightedSum(s: string): int
    requires InCharset(s)
  {
    if s == [] then 0 else WeightedSum(s[..|s| - 1]) + Weighted(s[|s| - 1], |s| - 1)
  }

  function Checksum(data: string): (c: char)
    ensures IsSymbol(c)
  {
    if InCharset(data) then Symbol(WeightedSum(data) % 32) else '0'
  }

  lemma SumExtends(s: string, c: char)
    requires InCharset(s) && IsSymbol(c)
    ensures InCharset(s + [c]) && WeightedSum(s + [c]) == WeightedSum(s) + Weighted(c, |s|)
  {
    hide Weighted, IsSymbol;
    assert (s + [c])[..|s|] == s && (s + [c])[|s|] == c;
  }

  method ComputeChecksum(data: string) returns (c: char)
    ensures c == Checksum(data)
    ensures !InCharset(data) ==> c == '0'
  {
    assert WeightedSum([]) == 0;
    hide Value, WeightedSum, IsSymbol, Symbol;
    var sum := 0;
    assert data[..0] == [];
    for i := 0 to |data|
      invariant InCharset(data[..i]) && sum == WeightedSum(data[..i])
    {
      var index := PositionFrom(data[i], 0);
      if index.None? {
        return '0';
      }
      ValueOfSymbol(index.value);
      SumExtends(data[..i], data[i]);
      assert data[..i + 1] == data[..i] + [data[i]];
      sum := sum + index.value * (2 * i + 1);
    }
    assert data[..|data|] == data;
    c := Symbol(sum % 32);
  }

  lemma {:induction false} SumAfterSubstitution(s: string, i: nat, c: char)
    requires InCharset(s) && i < |s| && IsSymbol(c)
    ensures InCharset(s[i := c])
    ensures WeightedSum(s[i := c]) == WeightedSum(s) + (Value(c) - Value(s[i])) * (2 * i + 1)
  {
    hide Value, WeightedSum, IsSymbol;
    var n, last := |s| - 1, s[|s| - 1];
    assert s == s[..n] + [last];
    SumExtends(s[..n], last);
    if i == n {
      assert s[i := c] == s[..n] + [c];
      SumExtends(s[..n], c);
      Distributes(Value(c), Value(last), 2 * i + 1);
    } else {
      SumAfterSubstitution(s[..n], i, c);
      assert s[i := c] == s[..n][i := c] + [last];
      SumExtends(s[..n][i := c], last);
    }
  }

  lemma Distributes(x: int, y: int, w: int)
    ensures (x - y) * w == x * w - y * w
  {}

  predicate PowerOfTwo(m: nat) {
    m == 1 || (m > 1 && m % 2 == 0 && PowerOfTwo(m / 2))
  }

  lemma Halved(k: int, d: int, h: int, q: int)
    requires (2 * k + 1) * d == 2 * h * q
    ensures d == 2 * (h * q - k * d) && (2 * k + 1) * (h * q - k * d) == h * q
  {}

  /** An odd factor takes nothing away from divisibility by a power of two. */
  lemma {:induction false} OddFactor(k: int, d: int, m: nat, q: int) returns (t: int)
    requires PowerOfTwo(m) && (2 * k + 1) * d == m * q
    ensures d == m * t
    decreases m
  {
    if m == 1 {
      t := d;
    } else {
      var h := m / 2;
      Halved(k, d, h, q);
      t := OddFactor(k, h * q - k * d, h, q);
      assert 2 * (h * t) == 2 * h * t;
    }
  }

  lemma SameSymbol(x: int, y: int)
    ensures Symbol(x % 32) == Symbol(y % 32) <==> x % 32 == y % 32
  {
    ValueOfSymbol(x % 32);
    ValueOfSymbol(y % 32);
  }

  /** Data of zeros only has checksum zero; with `SumAfterSubstitution` that fixes every checksum. */
  lemma {:induction false} ZerosSum(s: string)
    requires forall i | 0 <= i < |s| :: s[i] == '0'
    ensures InCharset(s) && WeightedSum(s) == 0 && Checksum(s) == '0'
  {
    SymbolRanges('0');
    assert Symbol(0) == '0';
    ValueOfSymbol(0);
    hide IsSymbol, Value, Symbol;
    if s != "" {
      ZerosSum(s[..|s| - 1]);
    }
  }

  /** Every substitution of one data character by another changes the checksum, whatever the length. */
  lemma SubstitutionChangesChecksum(s: string, i: nat, c: char)
    requires InCharset(s) && i < |s| && IsSymbol(c) && c != s[i]
    ensures Checksum(s[i := c]) != Checksum(s)
  {
    hide Value, WeightedSum, IsSymbol, Symbol, InCharset;
    SumAfterSubstitution(s, i, c);
    var d, x, y := Value(c) - Value(s[i]), WeightedSum(s[i := c]), WeightedSum(s);
    SameSymbol(x, y);
    if x % 32 == y % 32 {
      assert (2 * i + 1) * d == 32 * (x / 32 - y / 32);
      assert PowerOfTwo(1) && PowerOfTwo(2) && PowerOfTwo(4) && PowerOfTwo(8) && PowerOfTwo(16);
      var t := OddFactor(i, d, 32, x / 32 - y / 32);
    }
  }

  function Swapped(s: string, i: nat, j: nat): string
    requires i < j < |s|
  {
    s[i := s[j]][j := s[i]]
  }

  lemma SymbolsIn(s: string, i: nat)
    requires InCharset(s) && i < |s|
    ensures IsSymbol(s[i])
  {}

  lemma HalfOfDifference(x: int, y: int, p: int)
    requires x - y == 2 * p
    ensures x % 32 == y % 32 <==> p % 16 == 0
  {}

  lemma TwoSwapped(a: int, b: int, i: int, j: int)
    ensures (b - a) * (2 * i + 1) + (a - b) * (2 * j + 1) == 2 * ((j - i) * (a - b))
  {}

  /** A swap of two data characters escapes the checksum exactly when sixteen divides the product of their
      distance and the difference of their values. */
  lemma SwapEscapesChecksum(s: string, i: nat, j: nat)
    requires InCharset(s) && i < j < |s|
    ensures Checksum(Swapped(s, i, j)) == Checksum(s) <==> ((j - i) * (Value(s[i]) - Value(s[j]))) % 16 == 0
  {
    hide Value, WeightedSum, IsSymbol, Symbol, InCharset;
    assert IsSymbol(s[i]) && IsSymbol(s[j]) by { SymbolsIn(s, i); SymbolsIn(s, j); }
    var a: int, b: int := Value(s[i]), Value(s[j]);
    SumAfterSubstitution(s, i, s[j]);
    SumAfterSubstitution(s[i := s[j]], j, s[i]);
    var x, y, p := WeightedSum(Swapped(s, i, j)), WeightedSum(s), (j - i) * (a - b);
    SameSymbol(x, y);
    TwoSwapped(a, b, i, j);
    HalfOfDifference(x, y, p);
  }

  // ---------- A whole PIN

  predicate IsValidPin(pin: string) {
    |pin| == PIN_LENGTH && InCharset(pin) && Checksum(pin[..PIN_LENGTH - 1]) == pin[PIN_LENGTH - 1]
  }

  /** A valid PIN with one character wrong, anywhere and by anything, is refused. */
  lemma OneWrongCharacterIsRefused(pin: string, i: nat, c: char)
    requires IsValidPin(pin) && i < PIN_LENGTH && c != pin[i]
    ensures !IsValidPin(pin[i := c])
  {
    var n, wrong := PIN_LENGTH - 1, pin[i := c];
    if !IsSymbol(c) {
      assert !IsSymbol(wrong[i]);
    } else if i == n {
      assert wrong[..n] == pin[..n];
    } else {
      assert wrong[..n] == pin[..n][i := c];
      SubstitutionChangesChecksum(pin[..n], i, c);
    }
  }

  lemma TooShort(pin: string)
    requires |pin| != PIN_LENGTH
    ensures !IsValidPin(pin)
  {}

  /** A PIN whose checksum is known. */
  lemma KnownPin()
    ensures IsValidPin("ABCDE0123Y") && !IsValidPin("ABCDF0123Y") && !IsValidPin("BACDE0123Y") && !IsValidPin("ABCDE0123")
  {
    var pin := "ABCDE0123Y";
    KnownSum();
    KnownValues();
    hide Checksum, IsSymbol, InCharset, Value, Symbol;
    assert pin[..9] == "ABCDE0123";
    assert IsValidPin(pin);
    hide IsValidPin;
    assert pin[4 := 'F'] == "ABCDF0123Y";
    OneWrongCharacterIsRefused(pin, 4, 'F');
    assert Swapped(pin, 0, 1) == "BACDE0123Y";
    NeighboursSwapped(pin, 0);
    assert !IsValidPin("ABCDE0123") by { TooShort("ABCDE0123"); }
  }

  lemma KnownValues()
    ensures IsSymbol('A') && Value('A') == 10 && IsSymbol('B') && Value('B') == 11 && IsSymbol('C') && Value('C') == 12
    ensures IsSymbol('D') && Value('D') == 13 && IsSymbol('E') && Value('E') == 14 && IsSymbol('F')
    ensures IsSymbol('0') && Value('0') == 0 && IsSymbol('1') && Value('1') == 1 && IsSymbol('2') && Value('2') == 2
    ensures IsSymbol('3') && Value('3') == 3 && IsSymbol('Y') && Symbol(30) == 'Y'
  {
    SymbolCode(0); SymbolCode(1); SymbolCode(2); SymbolCode(3); SymbolCode(10); SymbolCode(11); SymbolCode(12);
    SymbolCode(13); SymbolCode(14); SymbolCode(15); SymbolCode(30);
    hide IsSymbol, Symbol, Value;
    ValueOfSymbol(0); ValueOfSymbol(1); ValueOfSymbol(2); ValueOfSymbol(3); ValueOfSymbol(10); ValueOfSymbol(11);
    ValueOfSymbol(12); ValueOfSymbol(13); ValueOfSymbol(14);
    assert Symbol(15) == 'F';
  }

  /** 10 + 3 * 11 + 5 * 12 + 7 * 13 + 9 * 14 + 13 + 2 * 15 + 3 * 17 == 414, and 414 % 32 == 30. */
  lemma KnownSum()
    ensures InCharset("ABCDE0123Y") && Checksum("ABCDE0123") == 'Y'
  {
    KnownValues();
    hide IsSymbol, Symbol, Value, WeightedSum;
    assert WeightedSum("") == 0 by { ZerosSum(""); }
    assert "" + "A" == "A" && "A" + "B" == "AB" && "AB" + "C" == "ABC" && "ABC" + "D" == "ABCD" && "ABCD" + "E" == "ABCDE";
    assert "ABCDE" + "0" == "ABCDE0" && "ABCDE0" + "1" == "ABCDE01" && "ABCDE01" + "2" == "ABCDE012" && "ABCDE012" + "3" == "ABCDE0123";
    SumExtends("", 'A'); SumExtends("A", 'B'); SumExtends("AB", 'C'); SumExtends("ABC", 'D'); SumExtends("ABCD", 'E');
    SumExtends("ABCDE", '0'); SumExtends("ABCDE0", '1'); SumExtends("ABCDE01", '2'); SumExtends("ABCDE012", '3');
  }

  /** `c` fits the place `i` of an otherwise known PIN. */
  predicate Fits(pin: string, i: nat, c: char)
    requires i < |pin|
  {
    IsValidPin(pin[i := c])
  }

  /** One character lost is one character recovered: exactly one fits its place, wherever that is. */
  lemma OneLostCharacterIsDetermined(pin: string, i: nat)
    requires |pin| == PIN_LENGTH && i < PIN_LENGTH
    ensures (exists c :: Fits(pin, i, c)) <==> forall j | 0 <= j < |pin| && j != i :: IsSymbol(pin[j])
    ensures forall c, d :: Fits(pin, i, c) && Fits(pin, i, d) ==> c == d
  {
    hide IsSymbol;
    forall c, d | Fits(pin, i, c) && Fits(pin, i, d) ensures c == d {
      assert pin[i := c][i := d] == pin[i := d];
      if d != c {
        OneWrongCharacterIsRefused(pin[i := c], i, d);
      }
    }
    if c :| Fits(pin, i, c) {
      forall j | 0 <= j < |pin| && j != i ensures IsSymbol(pin[j]) {
        assert pin[i := c][j] == pin[j];
      }
    }
    if forall j | 0 <= j < |pin| && j != i :: IsSymbol(pin[j]) {
      var c := FittingCharacter(pin, i);
    }
  }

  lemma FittingCharacter(pin: string, i: nat) returns (c: char)
    requires |pin| == PIN_LENGTH && i < PIN_LENGTH && forall j | 0 <= j < |pin| && j != i :: IsSymbol(pin[j])
    ensures Fits(pin, i, c)
  {
    hide IsSymbol, Symbol, Checksum;
    var n, any := PIN_LENGTH - 1, Symbol(0);
    var data := pin[i := any][..n];
    assert InCharset(pin[i := any]);
    if i == n {
      c := Checksum(data);
      assert pin[i := c][..n] == data;
    } else {
      c := FittingData(data, i, pin[n]);
      assert pin[i := c][..n] == data[i := c];
    }
  }

  /** Every checksum can be had by choosing one data character, for data of any length. */
  lemma FittingData(data: string, i: nat, checksum: char) returns (c: char)
    requires InCharset(data) && i < |data| && IsSymbol(checksum)
    ensures IsSymbol(c) && Checksum(data[i := c]) == checksum
  {
    hide WeightedSum, Value, IsSymbol, Symbol, InCharset;
    assert IsSymbol(data[i]) by { SymbolsIn(data, i); }
    var sum, a: int, want := WeightedSum(data), Value(data[i]), Value(checksum);
    var v := SolveWeight(i, sum, a, want);
    c := Symbol(v);
    ValueOfSymbol(v);
    SumAfterSubstitution(data, i, c);
  }

  /** An odd weight w divides modulo 32: its square is 1 + 8m, so w times w(1 - 8m) is 1 - 64mm. */
  lemma SolveWeight(i: int, sum: int, a: int, want: nat) returns (v: nat)
    requires want < 32
    ensures v < 32 && (sum + (v - a) * (2 * i + 1)) % 32 == want
  {
    var w, t := 2 * i + 1, want - sum;
    var m := OddSquare(i);
    var u := t * (w * (1 - 8 * m));
    var q;
    v, q := Reduced(a + u);
    InverseWeight(w, m, t);
    var h, k := t * (m * m), q * w;
    Distributes(u, 32 * q, w);
    assert (32 * q) * w == 32 * k;
    assert v - a == u - 32 * q;
    assert (v - a) * w == t - 64 * h - 32 * k;
    MultipleAway(sum + (v - a) * w, want, -2 * h - k);
  }

  lemma Reduced(x: int) returns (v: nat, q: int)
    ensures v < 32 && v == x - 32 * q
  {
    v, q := x % 32, x / 32;
  }

  lemma OddSquare(i: int) returns (m: int)
    ensures (2 * i + 1) * (2 * i + 1) == 1 + 8 * m
  {
    var e := i / 2;
    m := if i % 2 == 0 then 2 * (e * e) + e else 2 * (e * e) + 3 * e + 1;
    if i % 2 == 0 {
      Squared(4, e, 1);
    } else {
      Squared(4, e, 3);
    }
  }

  lemma Squared(k: int, e: int, r: int)
    ensures (k * e + r) * (k * e + r) == k * k * (e * e) + 2 * k * r * e + r * r
  {}

  lemma InverseWeight(w: int, m: int, t: int)
    requires w * w == 1 + 8 * m
    ensures t * (w * (1 - 8 * m)) * w == t - 64 * (t * (m * m))
  {
    calc {
      t * (w * (1 - 8 * m)) * w;
      t * ((w * w) * (1 - 8 * m));
      t * ((1 + 8 * m) * (1 - 8 * m));
      t * (1 - 64 * (m * m));
    }
  }

  lemma MultipleAway(x: int, want: nat, h: int)
    requires want < 32 && x == want + 32 * h
    ensures x % 32 == want
  {}

  lemma SwappedPinIsAccepted(pin: string, i: nat, j: nat)
    requires IsValidPin(pin) && i < j < PIN_LENGTH - 1
    ensures IsValidPin(Swapped(pin, i, j)) <==> ((j - i) * (Value(pin[i]) - Value(pin[j]))) % 16 == 0
  {
    hide Value, Checksum, IsSymbol, Symbol;
    var n := PIN_LENGTH - 1;
    assert Swapped(pin, i, j)[..n] == Swapped(pin[..n], i, j);
    SwapEscapesChecksum(pin[..n], i, j);
  }

  lemma SymbolsDiffer(c: char, d: char)
    requires IsSymbol(c) && IsSymbol(d) && c != d
    ensures Value(c) != Value(d)
  {}

  lemma Sixteenth(i: int, a: nat, b: nat)
    requires a < 32 && b < 32 && a != b
    ensures ((i + 1 - i) * (a - b)) % 16 == 0 <==> a - b == 16 || a - b == -16
  {}

  /** Neighbours typed in the wrong order are let through only if they are sixteen symbols apart. */
  lemma NeighboursSwapped(pin: string, i: nat)
    requires IsValidPin(pin) && i + 1 < PIN_LENGTH - 1 && pin[i] != pin[i + 1]
    ensures IsValidPin(Swapped(pin, i, i + 1))
            <==> Value(pin[i]) - Value(pin[i + 1]) == 16 || Value(pin[i]) - Value(pin[i + 1]) == -16
  {
    SwappedPinIsAccepted(pin, i, i + 1);
    hide *;
    SymbolsDiffer(pin[i], pin[i + 1]);
    Sixteenth(i, Value(pin[i]), Value(pin[i + 1]));
  }

  // ---------- Generation

  function DataOf(fill: bytes): (s: string)
    ensures InCharset(s) && |s| == |fill| && forall i | 0 <= i < |s| :: s[i] == Symbol(fill[i] as int % 32)
  {
    seq(|fill|, i requires 0 <= i < |fill| => Symbol(fill[i] as int % 32))
  }

  lemma DataExtends(buf: bytes, i: nat)
    requires i < |buf|
    ensures DataOf(buf[..i + 1]) == DataOf(buf[..i]) + [Symbol(buf[i] as int % 32)]
  {
    hide Symbol;
  }

  /** No modulo bias: a symbol comes from the bytes that are its value modulo 32, eight of the 256 for every symbol. */
  lemma EverySymbolEquallyLikely(v: nat, n: byte)
    requires v < 32
    ensures DataOf([n]) == [Symbol(v)] <==> (n as int - v) % 32 == 0
  {
    hide *;
    var m := n as int;
    OneByte(n);
    SameSymbol(m, v);
    Residue(m, v);
    Singletons(Symbol(m % 32), Symbol(v % 32));
  }

  lemma Singletons(c: char, d: char)
    ensures [c] == [d] <==> c == d
  {
    assert [c][0] == c && [d][0] == d;
  }

  lemma Residue(m: int, v: nat)
    requires v < 32
    ensures v % 32 == v && (m % 32 == v % 32 <==> (m - v) % 32 == 0)
  {}

  lemma OneByte(n: byte)
    ensures DataOf([n]) == [Symbol(n as int % 32)]
  {
    hide Symbol;
  }

  /** `fills` are the successive results of `fill_random` on the 18-byte buffer; `None` is a failing generator. */
  method GeneratePin(fills: seq<Option<bytes>>) returns (pin: Option<string>, used: nat)
    requires fills != [] && forall k | 0 <= k < |fills| && fills[k].Some? :: |fills[k].value| == 2 * (PIN_LENGTH - 1)
    ensures used == 1
    ensures pin.Some? <==> fills[0].Some?
    ensures pin.Some? ==> IsValidPin(pin.value) && pin.value[..PIN_LENGTH - 1] == DataOf(fills[0].value[..PIN_LENGTH - 1])
  {
    hide IsSymbol, Symbol, Checksum, DataOf;
    var dataLen, charsetLen := PIN_LENGTH - 1, |PIN_CHARSET|;
    var maxMultiple := (256 / charsetLen) * charsetLen;
    var data: string := [];
    used := 0;
    while |data| < dataLen
      invariant (used == 0 && data == []) || (used == 1 && fills[0].Some? && |data| == dataLen)
      invariant used == 1 ==> data == DataOf(fills[0].value[..dataLen])
      decreases dataLen - |data|
    {
      var filled := fills[used];
      used := used + 1;
      if filled.None? {
        return None, used;
      }
      var buf := filled.value;
      var i := 0;
      while i < |buf|
        invariant 0 <= i <= dataLen && data == DataOf(buf[..i]) && |data| < dataLen
      {
        var n := buf[i] as int;
        if n < maxMultiple {
          data := data + [Symbol(n % charsetLen)];
          DataExtends(buf, i);
          if |data| == dataLen {
            break;
          }
        }
        i := i + 1;
      }
    }
    var c := ComputeChecksum(data);
    assert (data + [c])[..dataLen] == data;
    pin := Some(data + [c]);
  }

  // ---------- Typing and showing

  function ToAsciiUppercase(c: char): char {
    if 'a' <= c <= 'z' then c - ' ' else c
  }

  predicate IsAscii(c: char) {
    c < '\U{0080}'
  }

  function NormalizePinChar(c: char): Option<char> {
    if !IsAscii(c) then None
    else
      match ToAsciiUppercase(c)
      case 'O' => Some('0')
      case 'I' => Some('1')
      case 'L' => Some('1')
      case upper => Some(upper)
  }

  function Typed(c: char): (s: string)
    ensures |s| <= 1
  {
    if IsWhitespace(c) || c == '-' then []
    else
      match NormalizePinChar(c)
      case None => []
      case Some(d) => [d]
  }

  function NormalizePinInput(raw: string): string {
    if raw == [] then [] else Typed(raw[0]) + NormalizePinInput(raw[1..])
  }

  /** The characters of `pin` in groups of five, joined by dashes. */
  function FormatPin(pin: string): string {
    if |pin| <= PIN_GROUP_LENGTH then pin
    else pin[..PIN_GROUP_LENGTH] + "-" + FormatPin(pin[PIN_GROUP_LENGTH..])
  }

  lemma FormatSplits(pin: string)
    requires |pin| > PIN_GROUP_LENGTH
    ensures FormatPin(pin) == pin[..5] + "-" + FormatPin(pin[5..])
  {}

  lemma {:induction false} FormatLength(pin: string)
    ensures |FormatPin(pin)| == |pin| + (if pin == "" then 0 else (|pin| - 1) / 5)
  {
    if |pin| > PIN_GROUP_LENGTH {
      FormatLength(pin[PIN_GROUP_LENGTH..]);
    }
  }

  /** Every sixth character shown is a dash, and the others are the text in order. */
  lemma {:induction false} FormatShape(pin: string, i: nat)
    requires i < |FormatPin(pin)|
    ensures if i % 6 == 5 then FormatPin(pin)[i] == '-' else i - i / 6 < |pin| && FormatPin(pin)[i] == pin[i - i / 6]
    decreases i
  {
    if |pin| > PIN_GROUP_LENGTH {
      var tail := pin[5..];
      FormatSplits(pin);
      hide FormatPin;
      if i >= 6 {
        var k := i - 6;
        FormatShape(tail, k);
        SixLater(i);
        assert FormatPin(pin)[i] == FormatPin(tail)[k];
      }
    }
  }

  lemma SixLater(i: nat)
    requires i >= 6
    ensures (i - 6) % 6 == i % 6 && (i - 6) / 6 == i / 6 - 1
  {}

  /** A whole PIN is shown as XXXXX-XXXXX. */
  lemma FormatWhole(pin: string)
    requires |pin| == PIN_LENGTH
    ensures FormatPin(pin) == pin[..5] + "-" + pin[5..]
  {}

  lemma {:induction false} NormalizeConcat(a: string, b: string)
    ensures NormalizePinInput(a + b) == NormalizePinInput(a) + NormalizePinInput(b)
  {
    if a == [] {
      assert a + b == b;
    } else {
      assert (a + b)[1..] == a[1..] + b;
      NormalizeConcat(a[1..], b);
      assert NormalizePinInput(a) == Typed(a[0]) + NormalizePinInput(a[1..]);
    }
  }

  /** Grouping for display adds nothing that typing keeps. */
  lemma {:induction false} NormalizeUndoesGrouping(pin: string)
    ensures NormalizePinInput(FormatPin(pin)) == NormalizePinInput(pin)
  {
    if |pin| > PIN_GROUP_LENGTH {
      var head, tail := pin[..PIN_GROUP_LENGTH], pin[PIN_GROUP_LENGTH..];
      assert pin == head + tail;
      NormalizeConcat(head, tail);
      NormalizeConcat(head + "-", FormatPin(tail));
      NormalizeConcat(head, "-");
      assert NormalizePinInput("-") == Typed('-') + NormalizePinInput([]);
      NormalizeUndoesGrouping(tail);
    }
  }

  /** Exactly the ASCII characters that are not separators, lower case or look-alikes stay as typed, foreign ones
      among them, so that they can be refused. */
  lemma KeptCharacters(c: char)
    ensures Typed(c) == [c] <==>
            || ('!' <= c <= '~' && c != '-' && !('a' <= c <= 'z') && c != 'I' && c != 'L' && c != 'O')
            || '\U{0000}' <= c <= '\U{0008}' || '\U{000E}' <= c <= '\U{001F}' || c == '\U{007F}'
  {}

  lemma CanonicalCharacter(c: char)
    requires IsSymbol(c)
    ensures Typed(c) == [c]
  {
    SymbolRanges(c);
    hide IsSymbol;
  }

  lemma {:induction false} CanonicalIsKept(pin: string)
    requires InCharset(pin)
    ensures NormalizePinInput(pin) == pin
  {
    hide IsSymbol, Typed;
    if pin != [] {
      CanonicalCharacter(pin[0]);
      CanonicalIsKept(pin[1..]);
    }
  }

  /** A PIN shown to the sender and typed as shown comes out as it was minted. */
  lemma ShownPinReadsBack(pin: string)
    requires InCharset(pin)
    ensures NormalizePinInput(FormatPin(pin)) == pin
  {
    NormalizeUndoesGrouping(pin);
    CanonicalIsKept(pin);
  }

  /** `raw` is `pin` as a person may type it: look-alikes for the characters, in either case, with separators and
      characters no keyboard of the alphabet has strewn in. */
  ghost predicate Spells(raw: string, pin: string) {
    if raw == [] then pin == []
    else
      || (pin != [] && LooksLike(raw[0], pin[0]) && Spells(raw[1..], pin[1..]))
      || (IsNoise(raw[0]) && Spells(raw[1..], pin))
  }

  predicate IsNoise(c: char) {
    IsWhitespace(c) || c == '-' || !IsAscii(c)
  }

  predicate LooksLike(typed: char, c: char) {
    || typed == c
    || ('A' <= c <= 'Z' && typed as int == c as int + 32)
    || (c == '0' && typed in "oO")
    || (c == '1' && typed in "iIlL")
  }

  lemma TypedSpells(typed: char, c: char)
    requires IsSymbol(c)
    ensures Typed(typed) == [c] <==> LooksLike(typed, c)
  {
    SymbolRanges(c);
    hide IsSymbol;
  }

  lemma TypedNoise(typed: char)
    ensures Typed(typed) == [] <==> IsNoise(typed)
  {}

  lemma FirstTyped(raw: string, pin: string)
    requires raw != []
    ensures NormalizePinInput(raw) == pin <==>
            || (Typed(raw[0]) == [] && NormalizePinInput(raw[1..]) == pin)
            || (pin != [] && Typed(raw[0]) == [pin[0]] && NormalizePinInput(raw[1..]) == pin[1..])
  {
    hide Typed;
    var first, rest := Typed(raw[0]), NormalizePinInput(raw[1..]);
    assert NormalizePinInput(raw) == first + rest;
    if first != [] {
      assert first == [first[0]] && (first + rest)[0] == first[0] && (first + rest)[1..] == rest;
    }
  }

  /** Exactly the spellings of a canonical PIN are read as that PIN. */
  lemma {:induction false} ReadsExactlySpellings(raw: string, pin: string)
    requires InCharset(pin)
    ensures NormalizePinInput(raw) == pin <==> Spells(raw, pin)
  {
    if raw != [] {
      hide IsSymbol, Typed, IsNoise, LooksLike;
      FirstTyped(raw, pin);
      TypedNoise(raw[0]);
      ReadsExactlySpellings(raw[1..], pin);
      if pin != [] {
        ReadsExactlySpellings(raw[1..], pin[1..]);
        TypedSpells(raw[0], pin[0]);
      }
      hide NormalizePinInput;
    }
  }
}
