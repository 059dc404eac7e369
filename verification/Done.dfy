/** The `DONE:N:B` control message of `src/transfer.rs`: printing it and parsing it. */
module Done {
  import opened Common
  import opened Chunk

  const U64_SIZE: nat := 0x1_0000_0000_0000_0000

  predicate IsDigit(c: char) { '0' <= c <= '9' }

  predicate AllDigits(s: string) { forall i | 0 <= i < |s| :: IsDigit(s[i]) }

  /** Base-ten value; leading zeros change nothing. */
  function Value(s: string): nat
    requires AllDigits(s)
  {
    if s == "" then 0 else 10 * Value(s[..|s| - 1]) + (s[|s| - 1] as nat - '0' as nat)
  }

  /** How Rust prints an unsigned integer. */
  function Decimal(n: nat): string {
    (if n < 10 then "" else Decimal(n / 10)) + [('0' as nat + n % 10) as char]
  }

  lemma {:induction false} ValueOfDecimal(n: nat)
    ensures Decimal(n) != "" && AllDigits(Decimal(n)) && Value(Decimal(n)) == n
  {
    if n >= 10 {
      ValueOfDecimal(n / 10);
      assert Decimal(n)[..|Decimal(n)| - 1] == Decimal(n / 10);
    } else {
      assert Decimal(n)[..0] == "";
    }
  }

  /** It is the one string of digits of that value without a leading zero. */
  lemma DecimalIsShortest(n: nat, s: string)
    ensures AllDigits(s) && s != "" && (|s| > 1 ==> s[0] != '0') && Value(s) == n <==> s == Decimal(n)
  {
    ValueOfDecimal(n);
    NoLeadingZero(n);
    hide *;
    if AllDigits(s) && s != "" && (|s| > 1 ==> s[0] != '0') && Value(s) == n {
      ShortestIsDecimal(n, s);
    }
  }

  lemma {:induction false} ShortestIsDecimal(n: nat, s: string)
    requires AllDigits(s) && s != "" && (|s| > 1 ==> s[0] != '0') && Value(s) == n
    ensures s == Decimal(n)
  {
    hide *;
    var front := LastDigit(s);
    DecimalStep(n);
    if front != "" {
      assert front[0] == s[0];
      NotZero(front);
      ShortestIsDecimal(n / 10, front);
    }
  }

  lemma LastDigit(s: string) returns (front: string)
    requires AllDigits(s) && s != ""
    ensures AllDigits(front) && front == s[..|s| - 1] && Value(s) / 10 == Value(front) && (front == "" ==> Value(front) == 0)
    ensures s == front + [('0' as nat + Value(s) % 10) as char]
  {
    front := s[..|s| - 1];
    var digit := s[|s| - 1] as nat - '0' as nat;
    assert Value(s) == 10 * Value(front) + digit;
    assert s == front + [s[|s| - 1]];
  }

  lemma DecimalStep(n: nat)
    ensures Decimal(n) == (if n < 10 then "" else Decimal(n / 10)) + [('0' as nat + n % 10) as char]
  {}

  lemma {:induction false} NoLeadingZero(n: nat)
    ensures |Decimal(n)| > 0 && (n > 0 ==> Decimal(n)[0] != '0') && (n == 0 ==> Decimal(n) == "0")
  {
    if n >= 10 {
      NoLeadingZero(n / 10);
    }
  }

  lemma {:induction false} NotZero(s: string)
    requires AllDigits(s) && s != "" && s[0] != '0'
    ensures Value(s) > 0
  {
    if |s| > 1 {
      NotZero(s[..|s| - 1]);
    } else {
      assert s[..0] == "";
    }
  }

  /** `str::parse::<u64>` on a string of digits. */
  function ParseU64(s: string): Option<nat>
    requires AllDigits(s)
  {
    if Value(s) < U64_SIZE then Some(Value(s)) else None
  }

  /** Position of the first colon, or the length. */
  function Colon(s: string): nat
    ensures Colon(s) <= |s|
    ensures Colon(s) < |s| ==> s[Colon(s)] == ':'
    ensures forall i | 0 <= i < Colon(s) :: s[i] != ':'
  {
    if s == "" || s[0] == ':' then 0 else 1 + Colon(s[1..])
  }

  function ParseDone(message: string): Option<(nat, nat)> {
    if |message| < 5 || message[..5] != "DONE:" then None
    else
      var values := message[5..];
      if Colon(values) == |values| then None
      else
        var chunks := values[..Colon(values)];
        var total := values[Colon(values) + 1..];
        if chunks == "" || total == "" || !AllDigits(chunks) || !AllDigits(total) then None
        else match (ParseU64(chunks), ParseU64(total))
          case (Some(n), Some(b)) => if n > MAX_CHUNKS || b > MAX_MESSAGE_SIZE then None else Some((n, b))
          case _ => None
  }

  function PrintDone(chunks: nat, total: nat): string {
    "DONE:" + Decimal(chunks) + ":" + Decimal(total)
  }

  predicate Spells(message: string, left: string, right: string) {
    message == "DONE:" + left + ":" + right
  }

  lemma SpelledParses(message: string, left: string, right: string)
    requires Spells(message, left, right) && AllDigits(left)
    ensures message[..5] == "DONE:" && Colon(message[5..]) == |left|
    ensures message[5..][..|left|] == left && message[5..][|left| + 1..] == right
  {
    var values := message[5..];
    assert values == left + ":" + right;
    assert values[|left|] == ':';
    assert forall i | 0 <= i < |left| :: values[i] == left[i];
  }

  /** Two digit strings with values within the limits. */
  predicate Counts(message: string, left: string, right: string, n: nat, b: nat) {
    && Spells(message, left, right) && left != "" && right != ""
    && AllDigits(left) && AllDigits(right) && Value(left) == n && Value(right) == b
  }

  lemma ParsedSpells(message: string)
    requires ParseDone(message).Some?
    ensures var (n, b) := ParseDone(message).value;
            var values := message[5..];
            && n <= MAX_CHUNKS && b <= MAX_MESSAGE_SIZE
            && Colon(values) < |values|
            && Counts(message, values[..Colon(values)], values[Colon(values) + 1..], n, b)
  {}

  lemma CountsParse(message: string, left: string, right: string, n: nat, b: nat)
    requires Counts(message, left, right, n, b) && n <= MAX_CHUNKS && b <= MAX_MESSAGE_SIZE
    ensures ParseDone(message) == Some((n, b))
  {
    SpelledParses(message, left, right);
  }

  /** The accepted language: two digit strings, leading zeros allowed, with values within the limits. */
  lemma ParseDoneAccepts(message: string, n: nat, b: nat)
    ensures ParseDone(message) == Some((n, b)) <==>
            n <= MAX_CHUNKS && b <= MAX_MESSAGE_SIZE && exists left, right :: Counts(message, left, right, n, b)
  {
    if ParseDone(message) == Some((n, b)) {
      ParsedSpells(message);
    }
    forall left, right | Counts(message, left, right, n, b) && n <= MAX_CHUNKS && b <= MAX_MESSAGE_SIZE
      ensures ParseDone(message) == Some((n, b))
    {
      CountsParse(message, left, right, n, b);
    }
  }

  /** The receiver reads back what the sender printed, exactly when the counts are within the limits. */
  lemma DoneRoundTrip(n: nat, b: nat)
    ensures n <= MAX_CHUNKS && b <= MAX_MESSAGE_SIZE ==> ParseDone(PrintDone(n, b)) == Some((n, b))
    ensures n > MAX_CHUNKS || b > MAX_MESSAGE_SIZE ==> ParseDone(PrintDone(n, b)) == None
  {
    ValueOfDecimal(n);
    ValueOfDecimal(b);
    var message := PrintDone(n, b);
    assert Counts(message, Decimal(n), Decimal(b), n, b);
    if n <= MAX_CHUNKS && b <= MAX_MESSAGE_SIZE {
      CountsParse(message, Decimal(n), Decimal(b), n, b);
    } else if ParseDone(message).Some? {
      ParsedSpells(message);
      var values := message[5..];
      SpellsOnce(message, values[..Colon(values)], values[Colon(values) + 1..], Decimal(n), Decimal(b));
    }
  }

  lemma SpellsOnce(message: string, l1: string, r1: string, l2: string, r2: string)
    requires Spells(message, l1, r1) && Spells(message, l2, r2) && AllDigits(l1) && AllDigits(l2)
    ensures l1 == l2 && r1 == r2
  {
    SpelledParses(message, l1, r1);
    SpelledParses(message, l2, r2);
  }
}
