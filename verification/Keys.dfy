/** Redis keys are built by gluing an arbitrary identifier and decimal numbers with colons. */
module Keys {

  const TB_PREFIX := "shardleak:rate:tb:"
  const FW_PREFIX := "shardleak:rate:fw:"

  function Digit(d: nat): (c: char)
    requires d < 10
    ensures c != ':' && c != '-'
    ensures c as int == '0' as int + d
  {
    '0' + d as char
  }

  function Digits(n: nat): (s: string)
    ensures |s| > 0 && ':' !in s && '-' !in s
  {
    if n < 10 then [Digit(n)] else Digits(n / 10) + [Digit(n % 10)]
  }

  /** How Go, Lua and JavaScript print a whole number. */
  function Decimal(n: int): (s: string)
    ensures |s| > 0 && ':' !in s
  {
    if n < 0 then "-" + Digits(-n) else Digits(n)
  }

  /** The key checkTokenBucket passes to its script. */
  function TokenBucketKey(id: string): string {
    TB_PREFIX + id
  }

  /** The key checkFixedWindow passes to its script. */
  function FixedWindowKey(id: string): string {
    FW_PREFIX + id
  }

  /** The per-window counter's key, built inside the script. */
  function WindowKey(key: string, windowStart: int): string {
    key + ":" + Decimal(windowStart)
  }

  /** The number that a sequence of decimal digits spells. */
  function ValueOf(s: string): int {
    if s == "" then 0 else 10 * ValueOf(s[..|s| - 1]) + (s[|s| - 1] as int - '0' as int)
  }

  lemma {:induction false} DigitsRead(n: nat)
    ensures ValueOf(Digits(n)) == n
    ensures n > 0 ==> Digits(n)[0] != '0'
  {
    if n < 10 {
      assert Digits(n)[..0] == "";
    } else {
      DigitsRead(n / 10);
      assert Digits(n)[..|Digits(n)| - 1] == Digits(n / 10);
    }
  }

  /** A printed number reads back: its digits are its value's, after a minus sign if it is negative. */
  lemma DecimalRead(n: int)
    ensures n >= 0 ==> ValueOf(Decimal(n)) == n && Decimal(n)[0] != '-'
    ensures n < 0 ==> Decimal(n)[0] == '-' && ValueOf(Decimal(n)[1..]) == -n
    ensures n != 0 ==> Decimal(n)[if n < 0 then 1 else 0] != '0'
  {
    DigitsRead(if n < 0 then -n else n);
    if n < 0 {
      assert Decimal(n)[1..] == Digits(-n);
      assert Decimal(n)[1] == Digits(-n)[0];
    } else {
      assert Decimal(n)[0] in Digits(n);
    }
  }

  lemma DecimalInjective(a: int, b: int)
    requires Decimal(a) == Decimal(b)
    ensures a == b
  {
    DecimalRead(a);
    DecimalRead(b);
  }

  /** The keys as Redis sees them. */
  lemma KeysSpelled(id: string, start: int)
    ensures TokenBucketKey(id) == "shardleak:rate:tb:" + id
    ensures WindowKey(FixedWindowKey(id), start) == "shardleak:rate:fw:" + id + ":" + Decimal(start)
  {
  }

  lemma NoColonAfter(a: string, x: string, i: int)
    requires ':' !in x && |a| < i < |a| + 1 + |x|
    ensures (a + ":" + x)[i] != ':'
  {
    assert (a + ":" + x)[i] == x[i - |a| - 1];
  }

  /** The last colon separates a colon-free tail, whatever the head contains. */
  lemma LastColonSplits(a: string, x: string, b: string, y: string)
    requires ':' !in x && ':' !in y
    requires a + ":" + x == b + ":" + y
    ensures a == b && x == y
  {
    var s := a + ":" + x;
    var t := b + ":" + y;
    if |a| < |b| {
      NoColonAfter(a, x, |b|);
    } else if |b| < |a| {
      NoColonAfter(b, y, |a|);
    }
    assert s[..|a|] == a && t[..|b|] == b;
    assert s[|a| + 1..] == x && t[|b| + 1..] == y;
  }

  /** A window counter belongs to one identifier and one window start. */
  lemma WindowKeyInjective(id: string, start: int, id': string, start': int)
    requires WindowKey(FixedWindowKey(id), start) == WindowKey(FixedWindowKey(id'), start')
    ensures id == id' && start == start'
  {
    LastColonSplits(FixedWindowKey(id), Decimal(start), FixedWindowKey(id'), Decimal(start'));
    DecimalInjective(start, start');
    PrefixCancels(FW_PREFIX, id, id');
  }

  lemma TokenBucketKeyInjective(id: string, id': string)
    requires TokenBucketKey(id) == TokenBucketKey(id')
    ensures id == id'
  {
    PrefixCancels(TB_PREFIX, id, id');
  }

  lemma PrefixCancels(p: string, a: string, b: string)
    requires p + a == p + b
    ensures a == b
  {
    assert (p + a)[|p|..] == a && (p + b)[|p|..] == b;
  }

  /** No bucket key is a counter key. */
  lemma KeySpacesDisjoint(id: string, id': string, start: int)
    ensures TokenBucketKey(id) != WindowKey(FixedWindowKey(id'), start)
  {
    assert TokenBucketKey(id)[15] == 't';
    assert WindowKey(FixedWindowKey(id'), start)[15] == 'f';
  }
}
