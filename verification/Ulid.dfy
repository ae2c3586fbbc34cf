/** Crockford base-32 ULIDs and the monotonic factory. */
module Ulid {
  import opened Ordering

  const CROCKFORD: string := "0123456789ABCDEFGHJKMNPQRSTVWXYZ"
  const ENTROPY_SPAN: int := 0x1_0000_0000_0000_0000_0000
  const TIMESTAMP_SPAN: int := 0x1_0000_0000_0000
  const ULID_SPAN: int := 0x1_0000_0000_0000_0000_0000_0000_0000_0000

  // ----- The alphabet -----

  /** The characters the format check admits after the first. */
  predicate IsCrockford(c: char) {
    || '0' <= c <= '9' || 'A' <= c <= 'H' || 'J' <= c <= 'K' || 'M' <= c <= 'N' || 'P' <= c <= 'T' || 'V' <= c <= 'Z'
  }

  function DigitChar(d: nat): (c: char)
    requires d < 32
    ensures IsCrockford(c) && Digit(c) == d
  {
    if d < 10 then '0' + d as char
    else if d < 18 then 'A' + (d - 10) as char
    else if d < 20 then 'J' + (d - 18) as char
    else if d < 22 then 'M' + (d - 20) as char
    else if d < 27 then 'P' + (d - 22) as char
    else 'V' + (d - 27) as char
  }

  function Digit(c: char): (d: nat)
    requires IsCrockford(c)
    ensures d < 32
  {
    if c <= '9' then (c - '0') as int
    else if c <= 'H' then 10 + (c - 'A') as int
    else if c <= 'K' then 18 + (c - 'J') as int
    else if c <= 'N' then 20 + (c - 'M') as int
    else if c <= 'T' then 22 + (c - 'P') as int
    else 27 + (c - 'V') as int
  }

  /** The digit characters are the alphabet of the source, in order. */
  lemma Alphabet(d: nat)
    requires d < 32
    ensures CROCKFORD[d] == DigitChar(d)
  {
  }

  lemma DigitOrder(a: char, b: char)
    requires IsCrockford(a) && IsCrockford(b)
    ensures a < b <==> Digit(a) < Digit(b)
    ensures a == b <==> Digit(a) == Digit(b)
  {
  }

  // ----- Positional notation -----

  function Pow32(k: nat): (p: nat)
    ensures p > 0
  {
    if k == 0 then 1 else 32 * Pow32(k - 1)
  }

  predicate Crockford(s: string) {
    forall i :: 0 <= i < |s| ==> IsCrockford(s[i])
  }

  /** The canonical form: 26 Crockford characters, the first at most '7'. */
  predicate IsUlid(s: string) {
    |s| == 26 && '0' <= s[0] <= '7' && Crockford(s)
  }

  /** The number a Crockford string stands for. */
  function Value(s: string): nat
    requires Crockford(s)
  {
    if s == "" then 0 else Digit(s[0]) * Pow32(|s| - 1) + Value(s[1..])
  }

  /** `n` shifted right by five bits `j` times, and the last five bits of what remains. */
  function DigitAt(n: nat, j: nat): (d: nat)
    ensures d < 32
  {
    if j == 0 then n % 32 else DigitAt(n / 32, j - 1)
  }

  /** The last `k` base-32 digits of `n`, most significant first. */
  function Digits(n: nat, k: nat): (s: string)
    ensures |s| == k && Crockford(s)
  {
    if k == 0 then "" else Digits(n / 32, k - 1) + [DigitChar(n % 32)]
  }

  function Encode(n: nat): string {
    Digits(n, 26)
  }

  /** Character `i` is the digit found by shifting right by five bits for every later character. */
  lemma {:induction false} DigitsAreShifts(n: nat, k: nat, i: nat)
    requires i < k
    ensures Digits(n, k)[i] == DigitChar(DigitAt(n, k - 1 - i))
  {
    if i < k - 1 {
      DigitsAreShifts(n / 32, k - 1, i);
    }
  }

  lemma {:induction false} ValueBound(s: string)
    requires Crockford(s)
    ensures Value(s) < Pow32(|s|)
  {
    if s != "" {
      ValueBound(s[1..]);
      LeadingDigit(Digit(s[0]), 32, Pow32(|s| - 1), Value(s[1..]), 0);
    }
  }

  lemma LeadingDigit(d: nat, e: nat, p: nat, x: nat, y: nat)
    requires d < e && x < p
    ensures d * p + x < e * p + y
  {
    assert (d + 1) * p <= e * p;
    assert (d + 1) * p == d * p + p;
  }

  /** Strings of one length compare as the numbers they stand for. */
  lemma {:induction false} ValueOrder(a: string, b: string)
    requires Crockford(a) && Crockford(b) && |a| == |b|
    ensures StrLess(a, b) <==> Value(a) < Value(b)
    ensures a == b <==> Value(a) == Value(b)
    decreases |a|
  {
    if a != "" {
      ValueOrder(a[1..], b[1..]);
      DigitOrder(a[0], b[0]);
      DigitOrder(b[0], a[0]);
      ValueBound(a[1..]);
      ValueBound(b[1..]);
      assert a == [a[0]] + a[1..] && b == [b[0]] + b[1..];
      var p, x, y := Pow32(|a| - 1), Value(a[1..]), Value(b[1..]);
      if Digit(a[0]) < Digit(b[0]) {
        LeadingDigit(Digit(a[0]), Digit(b[0]), p, x, y);
      } else if Digit(b[0]) < Digit(a[0]) {
        LeadingDigit(Digit(b[0]), Digit(a[0]), p, y, x);
      }
    }
  }

  lemma RemainderUnique(n: nat, m: nat, t: nat, r: nat)
    requires n == m * t + r && r < m
    ensures n % m == r
  {
    var q := n / m;
    assert n == m * q + n % m;
    if q != t {
      LeadingDigit(if q < t then q else t, if q < t then t else q, m, if q < t then n % m else r, if q < t then r else n % m);
    }
  }

  lemma SplitLow(n: nat, m: nat)
    requires m > 0
    ensures n % (32 * m) == 32 * (n / 32 % m) + n % 32
  {
    var q, d := n / 32, n % 32;
    var t, r := q / m, q % m;
    assert q == m * t + r;
    assert n == 32 * (m * t + r) + d == (32 * m) * t + (32 * r + d);
    RemainderUnique(n, 32 * m, t, 32 * r + d);
  }

  lemma Regroup(x: int, p: int, v: int, d: int)
    ensures x * (32 * p) + (32 * v + d) == 32 * (x * p + v) + d
  {
    assert x * (32 * p) == 32 * (x * p);
  }

  lemma {:induction false} ValueLast(s: string, c: char)
    requires Crockford(s) && IsCrockford(c)
    ensures Crockford(s + [c]) && Value(s + [c]) == 32 * Value(s) + Digit(c)
    decreases |s|
  {
    if s == "" {
      assert s + [c] == [c] && [c][1..] == "";
    } else {
      ValueLast(s[1..], c);
      assert (s + [c])[1..] == s[1..] + [c];
      Regroup(Digit(s[0]), Pow32(|s| - 1), Value(s[1..]), Digit(c));
    }
  }

  lemma {:induction false} DigitsValue(n: nat, k: nat)
    ensures Value(Digits(n, k)) == n % Pow32(k)
    decreases k
  {
    if k > 0 {
      DigitsValue(n / 32, k - 1);
      ValueLast(Digits(n / 32, k - 1), DigitChar(n % 32));
      SplitLow(n, Pow32(k - 1));
    }
  }

  lemma Spans()
    ensures Pow32(25) * 8 == ULID_SPAN && Pow32(26) == 4 * ULID_SPAN && TIMESTAMP_SPAN * ENTROPY_SPAN == ULID_SPAN
  {
    assert Pow32(5) == 0x200_0000;
    assert Pow32(10) == 0x4_0000_0000_0000;
    assert Pow32(15) == 0x800_0000_0000_0000_0000;
    assert Pow32(20) == 0x10_0000_0000_0000_0000_0000_0000;
    assert Pow32(25) == 0x2000_0000_0000_0000_0000_0000_0000_0000;
  }

  lemma {:induction false} SmallDigit(n: nat, j: nat)
    requires n < 8 * Pow32(j)
    ensures DigitAt(n, j) < 8
  {
    if j > 0 {
      SmallDigit(n / 32, j - 1);
    }
  }

  /** A number below `8 * 32^(k - 1)` is what its last `k` digits stand for, and the first is at most '7'. */
  lemma DigitsDecode(n: nat, k: nat)
    requires k > 0 && n < 8 * Pow32(k - 1)
    ensures '0' <= Digits(n, k)[0] <= '7' && Value(Digits(n, k)) == n
  {
    DigitsAreShifts(n, k, 0);
    SmallDigit(n, k - 1);
    DigitsValue(n, k);
    RemainderUnique(n, Pow32(k), 0, n);
  }

  /** Encoding gives a canonical ULID that decodes to the number. */
  lemma EncodeDecodes(n: nat)
    requires n < ULID_SPAN
    ensures IsUlid(Encode(n)) && Value(Encode(n)) == n
  {
    Spans();
    DigitsDecode(n, 26);
  }

  /** Every canonical ULID is the encoding of its number, which fits 128 bits. */
  lemma DecodeEncodes(s: string)
    requires IsUlid(s)
    ensures Value(s) < ULID_SPAN && Encode(Value(s)) == s
  {
    Spans();
    ValueBound(s[1..]);
    LeadingDigit(Digit(s[0]), 8, Pow32(25), Value(s[1..]), 0);
    EncodeDecodes(Value(s));
    ValueOrder(Encode(Value(s)), s);
  }

  /** Encoded strings compare as the numbers. */
  lemma EncodeOrder(a: nat, b: nat)
    requires a < ULID_SPAN && b < ULID_SPAN
    ensures StrLess(Encode(a), Encode(b)) <==> a < b
  {
    EncodeDecodes(a);
    EncodeDecodes(b);
    ValueOrder(Encode(a), Encode(b));
  }

  // ----- The factory -----

  datatype Call = Call(timestampMs: int, entropy: int)

  datatype Generated = Refused | Fresh(value: string)

  predicate InRange(call: Call) {
    0 <= call.timestampMs < TIMESTAMP_SPAN && 0 <= call.entropy < ENTROPY_SPAN
  }

  function Max(a: int, b: int): int {
    if a < b then b else a
  }

  /** The number after `last` (-1 at first): never before the last timestamp, and always past the last number. */
  function Next(last: int, call: Call): int {
    Max(Max(call.timestampMs, last / ENTROPY_SPAN) * ENTROPY_SPAN + call.entropy, last + 1)
  }

  predicate Refuses(last: int, call: Call) {
    !InRange(call) || last == ULID_SPAN - 1
  }

  /** The number with the given timestamp and entropy; -1 stands for nothing generated yet. */
  function Numeric(timestampMs: int, entropy: int): int {
    if timestampMs == -1 then -1 else timestampMs * ENTROPY_SPAN + entropy
  }

  predicate Resolved(timestampMs: int, entropy: int) {
    0 <= timestampMs < TIMESTAMP_SPAN && 0 <= entropy < ENTROPY_SPAN
  }

  lemma NumericTimestamp(timestampMs: int, entropy: int)
    requires Resolved(timestampMs, entropy) || (timestampMs == -1 && entropy == -1)
    ensures Numeric(timestampMs, entropy) / ENTROPY_SPAN == timestampMs
    ensures -1 <= Numeric(timestampMs, entropy) < ULID_SPAN
    ensures Numeric(timestampMs, entropy) == ULID_SPAN - 1 <==>
            timestampMs == TIMESTAMP_SPAN - 1 && entropy == ENTROPY_SPAN - 1
  {
  }

  class MonotonicUlidFactory {
    var lastTimestampMs: int
    var lastEntropy: int

    ghost predicate Valid()
      reads this
    {
      (lastTimestampMs == -1 && lastEntropy == -1) || Resolved(lastTimestampMs, lastEntropy)
    }

    /** The last number generated, or -1. */
    ghost function Last(): int
      reads this
    {
      Numeric(lastTimestampMs, lastEntropy)
    }

    constructor ()
      ensures Valid() && Last() == -1
    {
      lastTimestampMs, lastEntropy := -1, -1;
    }

    method Generate(timestampMs: int, entropy: int) returns (r: Generated)
      requires Valid()
      modifies this
      ensures Valid()
      ensures r.Refused? <==> Refuses(old(Last()), Call(timestampMs, entropy))
      ensures r.Refused? ==> Last() == old(Last())
      ensures r.Fresh? ==> Last() == Next(old(Last()), Call(timestampMs, entropy)) && 0 <= Last() < ULID_SPAN
      ensures r.Fresh? ==> r.value == Encode(Last())
    {
      NumericTimestamp(lastTimestampMs, lastEntropy);
      if !(0 <= timestampMs < TIMESTAMP_SPAN) || !(0 <= entropy < ENTROPY_SPAN) {
        return Refused;
      }
      var resolvedTimestamp := Max(timestampMs, lastTimestampMs);
      var resolvedEntropy := entropy;
      if resolvedTimestamp == lastTimestampMs {
        resolvedEntropy := Max(entropy, lastEntropy + 1);
      }
      if resolvedEntropy >= ENTROPY_SPAN {
        if resolvedTimestamp == TIMESTAMP_SPAN - 1 {
          return Refused;
        }
        resolvedTimestamp := resolvedTimestamp + 1;
        resolvedEntropy := 0;
      }
      lastTimestampMs := resolvedTimestamp;
      lastEntropy := resolvedEntropy;
      var numeric := resolvedTimestamp * ENTROPY_SPAN + resolvedEntropy;
      r := Fresh(Encode(numeric));
    }
  }

  // ----- Call sequences -----

  /** The numbers generated by a sequence of calls, refused calls leaving no trace. */
  function Numbers(last: int, calls: seq<Call>): seq<int>
    decreases |calls|
  {
    if calls == [] then []
    else if Refuses(last, calls[0]) then Numbers(last, calls[1..])
    else [Next(last, calls[0])] + Numbers(Next(last, calls[0]), calls[1..])
  }

  lemma NextInRange(last: int, call: Call)
    requires -1 <= last < ULID_SPAN && !Refuses(last, call)
    ensures last < Next(last, call) < ULID_SPAN && 0 <= Next(last, call)
  {
  }

  ghost predicate IncreasingAfter(last: int, ns: seq<int>) {
    && (forall i :: 0 <= i < |ns| ==> last < ns[i] < ULID_SPAN)
    && (forall i, j :: 0 <= i < j < |ns| ==> ns[i] < ns[j])
  }

  lemma {:induction false} NumbersIncrease(last: int, calls: seq<Call>)
    requires -1 <= last < ULID_SPAN
    ensures IncreasingAfter(last, Numbers(last, calls))
    decreases |calls|
  {
    if calls != [] {
      if Refuses(last, calls[0]) {
        NumbersIncrease(last, calls[1..]);
      } else {
        NextInRange(last, calls[0]);
        NumbersIncrease(Next(last, calls[0]), calls[1..]);
      }
    }
  }

  /** Over any calls, every generated string is canonical and decodes to its number. */
  lemma UlidIsCanonical(calls: seq<Call>, i: nat)
    requires i < |Numbers(-1, calls)|
    ensures var n := Numbers(-1, calls)[i];
            0 <= n < ULID_SPAN && IsUlid(Encode(n)) && Value(Encode(n)) == n
  {
    NumbersIncrease(-1, calls);
    EncodeDecodes(Numbers(-1, calls)[i]);
  }

  /** Over any calls, clocks running backwards included, the strings strictly increase. */
  lemma UlidsIncrease(calls: seq<Call>, i: nat, j: nat)
    requires i < j < |Numbers(-1, calls)|
    ensures var ns := Numbers(-1, calls);
            0 <= ns[i] && 0 <= ns[j] && StrLess(Encode(ns[i]), Encode(ns[j]))
  {
    NumbersIncrease(-1, calls);
    EncodeOrder(Numbers(-1, calls)[i], Numbers(-1, calls)[j]);
  }

  /** A later request is taken as it stands; otherwise the last timestamp stays, with the greater of the given and the next random part. */
  lemma NextMeans(last: int, call: Call)
    requires -1 <= last < ULID_SPAN && !Refuses(last, call)
    ensures last == -1 || call.timestampMs > last / ENTROPY_SPAN ==> Next(last, call) == call.timestampMs * ENTROPY_SPAN + call.entropy
    ensures last >= 0 && call.timestampMs <= last / ENTROPY_SPAN ==>
              Next(last, call) == if call.entropy > last % ENTROPY_SPAN then last / ENTROPY_SPAN * ENTROPY_SPAN + call.entropy else last + 1
  {
  }

  /** A call is refused exactly if its parts do not fit 48 and 80 bits, or every number has been used up. */
  lemma RefusesMeans(last: int, call: Call)
    ensures Refuses(last, call) <==>
            || call.timestampMs < 0 || call.timestampMs >= 0x1_0000_0000_0000
            || call.entropy < 0 || call.entropy >= 0x1_0000_0000_0000_0000_0000
            || last == 0x1_0000_0000_0000_0000_0000_0000_0000_0000 - 1
  {
  }

  // ----- Overflow of the random part -----

  /** The timestamp of a number. */
  function Timestamp(n: int): int {
    n / ENTROPY_SPAN
  }

  /** The ULID specification, section "Monotonicity": incrementing a random part that is all ones fails. */
  predicate OverflowsRandomness(last: int, call: Call) {
    last >= 0 && last % ENTROPY_SPAN == ENTROPY_SPAN - 1 && call.timestampMs <= Timestamp(last)
  }

  lemma SplitNumber(t: int, e: int)
    requires 0 <= e < ENTROPY_SPAN
    ensures Timestamp(t * ENTROPY_SPAN + e) == t && (t * ENTROPY_SPAN + e) % ENTROPY_SPAN == e
  {
  }

  /** The code gives a timestamp later than requested and last seen exactly where the specification has generation fail; then it starts the next millisecond at zero. */
  lemma CarriesExactlyOnOverflow(last: int, call: Call)
    requires -1 <= last < ULID_SPAN && !Refuses(last, call)
    ensures Timestamp(Next(last, call)) > Max(call.timestampMs, Timestamp(last)) <==> OverflowsRandomness(last, call)
    ensures OverflowsRandomness(last, call) ==> Next(last, call) == (Timestamp(last) + 1) * ENTROPY_SPAN
  {
    var t := Max(call.timestampMs, Timestamp(last));
    SplitNumber(t, call.entropy);
    SplitNumber(Timestamp(last), last % ENTROPY_SPAN);
    if OverflowsRandomness(last, call) {
      SplitNumber(Timestamp(last) + 1, 0);
    }
  }

  /** Two calls at time zero, the first with the greatest random part: the second is stamped one millisecond later. */
  lemma CarryExample()
    ensures var calls := [Call(0, ENTROPY_SPAN - 1), Call(0, 0)];
            var ns := Numbers(-1, calls);
            |ns| == 2 && Timestamp(ns[0]) == 0 && OverflowsRandomness(ns[0], calls[1]) && Timestamp(ns[1]) == 1
  {
    var first, second := Call(0, ENTROPY_SPAN - 1), Call(0, 0);
    assert [first, second][1..] == [second] && [second][1..] == [];
    assert Next(-1, first) == ENTROPY_SPAN - 1 && Next(ENTROPY_SPAN - 1, second) == ENTROPY_SPAN;
    assert Numbers(ENTROPY_SPAN - 1, [second]) == [ENTROPY_SPAN] + Numbers(ENTROPY_SPAN, []);
  }
}
