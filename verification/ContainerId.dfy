/** Generated container ids and the name rule they have to satisfy. */
module ContainerId {
  import opened Decimal

  const U32_MAX: nat := 0xFFFF_FFFF
  const U64_MAX: nat := 0xFFFF_FFFF_FFFF_FFFF

  /** The largest number of nanoseconds a duration of u64 seconds can hold. */
  const NANOS_MAX: nat := U64_MAX * 1_000_000_000 + 999_999_999

  predicate Alphanumeric(c: char) {
    'a' <= c <= 'z' || 'A' <= c <= 'Z' || '0' <= c <= '9'
  }

  predicate NameChar(c: char) {
    Alphanumeric(c) || c == '_' || c == '.' || c == '-'
  }

  /** 2 to 63 characters, the first alphanumeric, the others alphanumeric or one of `_.-`. */
  predicate NameValid(id: string) {
    && 2 <= |id| <= 63
    && Alphanumeric(id[0])
    && forall i :: 1 <= i < |id| ==> NameChar(id[i])
  }

  method IsValidContainerId(id: string) returns (ok: bool)
    ensures ok <==> NameValid(id)
  {
    if |id| < 2 || |id| > 63 {
      return false;
    }
    if !Alphanumeric(id[0]) {
      return false;
    }
    for i := 1 to |id|
      invariant forall k :: 1 <= k < i ==> NameChar(id[k])
    {
      if !NameChar(id[i]) {
        return false;
      }
    }
    ok := true;
  }

  /** `{pid}-{nanos}-{count}` */
  function Suffix(pid: nat, nanos: nat, count: nat): string {
    Text(pid) + "-" + Text(nanos) + "-" + Text(count)
  }

  function GeneratedId(pid: nat, nanos: nat, count: nat): string {
    "c-" + Suffix(pid, nanos, count)
  }

  /** The counter after `k` more ids. */
  function CounterAfter(first: nat, k: nat): nat {
    if k == 0 then first else (CounterAfter(first, k - 1) + 1) % (U64_MAX + 1)
  }

  /** The process-wide counter behind the suffix. */
  class Counter {
    var next: nat

    ghost predicate Valid()
      reads this
    {
      next <= U64_MAX
    }

    constructor ()
      ensures Valid() && next == 0
    {
      next := 0;
    }

    /** One id: the counter is read and advanced in one atomic step. */
    method UniqueSuffix(pid: nat, nanos: nat) returns (s: string)
      requires Valid()
      modifies this
      ensures Valid() && s == Suffix(pid, nanos, old(next)) && next == CounterAfter(old(next), 1)
    {
      s := Text(pid) + "-" + Text(nanos) + "-" + Text(next);
      assert CounterAfter(next, 0) == next;
      next := (next + 1) % (U64_MAX + 1);
    }
  }

  lemma Limits()
    ensures Pow10(9) <= U32_MAX < Pow10(10) && Pow10(19) <= U64_MAX < Pow10(20) && Pow10(28) <= NANOS_MAX < Pow10(29)
  {
    assert Pow10(4) == 10000 by {
      assert Pow10(1) == 10 && Pow10(2) == 100 && Pow10(3) == 1000;
    }
    assert Pow10(8) == 1_0000_0000 by {
      assert Pow10(5) == 10_0000 && Pow10(6) == 100_0000 && Pow10(7) == 1000_0000;
    }
    assert Pow10(9) == 10_0000_0000 && Pow10(10) == 100_0000_0000 && Pow10(11) == 1000_0000_0000;
    assert Pow10(12) == 1_0000_0000_0000 && Pow10(13) == 10_0000_0000_0000 && Pow10(14) == 100_0000_0000_0000;
    assert Pow10(15) == 1000_0000_0000_0000 && Pow10(16) == 1_0000_0000_0000_0000;
    assert Pow10(17) == 10_0000_0000_0000_0000 && Pow10(18) == 100_0000_0000_0000_0000;
    assert Pow10(19) == 1000_0000_0000_0000_0000 && Pow10(20) == 1_0000_0000_0000_0000_0000;
    assert Pow10(21) == 10 * Pow10(20) && Pow10(22) == 10 * Pow10(21) && Pow10(23) == 10 * Pow10(22);
    assert Pow10(24) == 10 * Pow10(23) && Pow10(25) == 10 * Pow10(24) && Pow10(26) == 10 * Pow10(25);
    assert Pow10(27) == 10 * Pow10(26) && Pow10(28) == 10 * Pow10(27) && Pow10(29) == 10 * Pow10(28);
  }

  /** Every generated id satisfies the name rule, up to the exact length limit. */
  lemma GeneratedIdIsValid(pid: nat, nanos: nat, count: nat)
    requires pid < 0x1_0000_0000 && nanos < 0x1_0000_0000_0000_0000 * 1_000_000_000 && count < 0x1_0000_0000_0000_0000
    ensures NameValid(GeneratedId(pid, nanos, count))
  {
    Limits();
    TextLength(pid, 10);
    TextLength(nanos, 29);
    TextLength(count, 20);
    DigitsAreNameChars(pid);
    DigitsAreNameChars(nanos);
    DigitsAreNameChars(count);
    hide Text, Pow10;
    var head := "c-";
    assert NameChars(head) && NameChars("-");
    NameCharsConcat(Text(pid), "-");
    NameCharsConcat(Text(pid) + "-", Text(nanos));
    NameCharsConcat(Text(pid) + "-" + Text(nanos), "-");
    NameCharsConcat(Text(pid) + "-" + Text(nanos) + "-", Text(count));
    NameCharsConcat(head, Suffix(pid, nanos, count));
    assert GeneratedId(pid, nanos, count)[0] == 'c';
  }

  /** The limit is met exactly: one more digit anywhere and the largest id would be refused. */
  lemma LongestIdIsJustValid()
    ensures |GeneratedId(0xFFFF_FFFF, 0x1_0000_0000_0000_0000 * 1_000_000_000 - 1, 0xFFFF_FFFF_FFFF_FFFF)| == 63
  {
    Limits();
    TextLength(U32_MAX, 10);
    TextLength(NANOS_MAX, 29);
    TextLength(U64_MAX, 20);
    TextLengthAtLeast(U32_MAX, 10);
    TextLengthAtLeast(NANOS_MAX, 29);
    TextLengthAtLeast(U64_MAX, 20);
    hide Text, Pow10;
  }

  predicate NameChars(s: string) {
    forall i :: 0 <= i < |s| ==> NameChar(s[i])
  }

  lemma DigitsAreNameChars(n: nat)
    ensures NameChars(Text(n))
  {
  }

  lemma NameCharsConcat(a: string, b: string)
    requires NameChars(a) && NameChars(b)
    ensures NameChars(a + b)
  {
  }

  /** The part after the last dash. */
  function AfterLastDash(s: string): string {
    if s == [] || s[|s| - 1] == '-' then [] else AfterLastDash(s[..|s| - 1]) + [s[|s| - 1]]
  }

  lemma {:induction false} AfterLastDashIs(front: string, digits: string)
    requires forall i :: 0 <= i < |digits| ==> digits[i] != '-'
    ensures AfterLastDash(front + "-" + digits) == digits
    decreases |digits|
  {
    var s := front + "-" + digits;
    if digits == [] {
      assert s[|s| - 1] == '-';
    } else {
      var n := |digits| - 1;
      assert s[..|s| - 1] == front + "-" + digits[..n];
      AfterLastDashIs(front, digits[..n]);
      assert digits == digits[..n] + [digits[n]];
    }
  }

  /** Ids made with different counter values differ, whatever the clock did. */
  lemma IdsDiffer(pid: nat, nanos: nat, count: nat, pid': nat, nanos': nat, count': nat)
    requires count != count'
    ensures GeneratedId(pid, nanos, count) != GeneratedId(pid', nanos', count')
  {
    CountIsReadable(pid, nanos, count);
    CountIsReadable(pid', nanos', count');
    if Text(count) == Text(count') {
      TextIsInjective(count, count');
    }
  }

  lemma CountIsReadable(pid: nat, nanos: nat, count: nat)
    ensures AfterLastDash(GeneratedId(pid, nanos, count)) == Text(count)
  {
    hide Text, AfterLastDash;
    var front := "c-" + Text(pid) + "-" + Text(nanos);
    assert GeneratedId(pid, nanos, count) == front + "-" + Text(count);
    AfterLastDashIs(front, Text(count));
  }

  /** The counter wraps around and only then repeats: the values it has for the ids number `i` and
      `j` of a process are equal exactly when `j - i` is a multiple of 2^64. */
  lemma CounterRepeatsAfterFullTurn(first: nat, i: nat, j: nat)
    requires first <= U64_MAX && i <= j
    ensures CounterAfter(first, i) == CounterAfter(first, j) <==> (j - i) % 0x1_0000_0000_0000_0000 == 0
  {
    hide CounterAfter;
    var here, k := CounterAfter(first, i), j - i;
    CounterIs(first, i);
    CounterIs(here, k);
    CounterOn(first, i, k);
    FullTurn(here, k);
    assert i + k == j;
  }

  lemma FullTurn(first: nat, k: nat)
    requires first <= U64_MAX
    ensures (first + k) % (U64_MAX + 1) == first <==> k % (U64_MAX + 1) == 0
  {
    var m := U64_MAX + 1;
    var q, r := k / m, k % m;
    assert k == q * m + r;
    if first + r < m {
      assert (first + k) == q * m + (first + r);
      ModIs(first + k, q, first + r);
    } else {
      assert (first + k) == (q + 1) * m + (first + r - m);
      ModIs(first + k, q + 1, first + r - m);
    }
  }

  lemma {:induction false} CounterOn(first: nat, i: nat, k: nat)
    ensures CounterAfter(first, i + k) == CounterAfter(CounterAfter(first, i), k)
    decreases k
  {
    if k > 0 {
      CounterOn(first, i, k - 1);
      assert i + k - 1 == i + (k - 1);
    }
  }

  lemma {:induction false} CounterIs(first: nat, k: nat)
    requires first <= U64_MAX
    ensures CounterAfter(first, k) == (first + k) % (U64_MAX + 1) <= U64_MAX
    decreases k
  {
    var m := U64_MAX + 1;
    if k == 0 {
      ModIs(first, 0, first);
    } else {
      CounterIs(first, k - 1);
      var x := first + k - 1;
      var q, r := x / m, x % m;
      assert x == q * m + r;
      if r + 1 < m {
        ModIs(x + 1, q, r + 1);
        ModIs(r + 1, 0, r + 1);
      } else {
        ModIs(x + 1, q + 1, 0);
        ModIs(r + 1, 1, 0);
      }
    }
  }

  lemma ModIs(x: nat, q: nat, r: nat)
    requires r < U64_MAX + 1 && x == q * (U64_MAX + 1) + r
    ensures x % (U64_MAX + 1) == r
  {
  }

  /** Two ids made by one process differ, whatever the clock did, unless a multiple of 2^64 ids
      lies between them. */
  lemma IdsOfOneProcessDiffer(pid: nat, first: nat, i: nat, nanos: nat, j: nat, nanos': nat)
    requires first <= U64_MAX && i <= j && (j - i) % 0x1_0000_0000_0000_0000 != 0
    ensures GeneratedId(pid, nanos, CounterAfter(first, i)) != GeneratedId(pid, nanos', CounterAfter(first, j))
  {
    CounterRepeatsAfterFullTurn(first, i, j);
    IdsDiffer(pid, nanos, CounterAfter(first, i), pid, nanos', CounterAfter(first, j));
  }

  /** The name rule in character codes: two to 63 characters, a letter or a digit in front, and after
      it letters, digits, dashes, dots and underscores. */
  lemma NameValidIs(id: string)
    ensures NameValid(id) <==>
              && 2 <= |id| <= 63
              && (var c := id[0] as int; 48 <= c <= 57 || 65 <= c <= 90 || 97 <= c <= 122)
              && forall i :: 1 <= i < |id| ==>
                   var c := id[i] as int;
                   48 <= c <= 57 || 65 <= c <= 90 || 97 <= c <= 122 || c == 45 || c == 46 || c == 95
  {
  }

  /** The three numbers of an id can be read off it. */
  lemma GeneratedIdIs(pid: nat, nanos: nat, count: nat)
    ensures exists p, n, c ::
              && GeneratedId(pid, nanos, count) == "c-" + (p + "-" + n + "-" + c)
              && (forall i :: 0 <= i < |p| ==> 48 <= p[i] as int <= 57) && NumberOf(p) == pid
              && (forall i :: 0 <= i < |n| ==> 48 <= n[i] as int <= 57) && NumberOf(n) == nanos
              && (forall i :: 0 <= i < |c| ==> 48 <= c[i] as int <= 57) && NumberOf(c) == count
  {
    TextReadsBack(pid);
    TextReadsBack(nanos);
    TextReadsBack(count);
    hide Text, NumberOf;
    assert GeneratedId(pid, nanos, count) == "c-" + (Text(pid) + "-" + Text(nanos) + "-" + Text(count));
  }
}
