/** pkg/scope/usage_aggregator.go: usage samples gathered into one bucket per
    minute, key, agent and image. Open buckets live in memory; closed ones are
    flushed to a store. The text of a minute is left open: all that is used of
    it is `Rfc3339`, which `MinuteText` proves of the text the source writes. */
module Usage {
  import opened Keys
  import opened Options
  import Lex

  const MINUTE: int := 60_000_000_000

  /** `Truncate(time.Minute)`, as a number of minutes. An instant is a number of
      nanoseconds since the zero time, the beginning of the year 1. */
  function MinuteOf(at: int): int {
    at / MINUTE
  }

  lemma MinuteIsExact(at: int, m: int)
    ensures MinuteOf(at) == m <==> m * 60_000_000_000 <= at < (m + 1) * 60_000_000_000
  {
  }

  /** The minutes of the years 0000 to 9999: 366 days before the zero time, and
      3652059 days after it. */
  const FIRST_MINUTE: int := -366 * 1440
  const END_MINUTE: int := 3652059 * 1440

  predicate FourDigit(minute: int) {
    FIRST_MINUTE <= minute < END_MINUTE
  }

  datatype Amounts = Amounts(vcpuSeconds: real, gpuSeconds: real, bytesIn: int, bytesOut: int)

  /** A 64-bit signed integer after overflow. */
  function Wrap64(n: int): int {
    (n + 0x8000_0000_0000_0000) % TWO_TO_THE_64 - 0x8000_0000_0000_0000
  }

  function Plus(a: Amounts, b: Amounts): Amounts {
    Amounts(a.vcpuSeconds + b.vcpuSeconds, a.gpuSeconds + b.gpuSeconds,
            Wrap64(a.bytesIn + b.bytesIn), Wrap64(a.bytesOut + b.bytesOut))
  }

  const NOTHING := Amounts(0.0, 0.0, 0, 0)

  datatype Sample = Sample(api: Text, agent: Text, image: Text, at: int, used: Amounts)

  /** `UsagePayload` */
  datatype Row = Row(window: Text, api: Text, agent: Text, image: Text, used: Amounts)

  /** Empty texts and absent bounds match everything. */
  datatype Query = Query(api: Text, agent: Text, image: Text, since: Option<int>, until: Option<int>)

  type Clock = int -> Text

  /** The minutes of four-digit years render in order and without a bar. */
  ghost predicate Rfc3339(text: Clock) {
    && (forall m, n :: FourDigit(m) && FourDigit(n) ==> (m < n <==> Lex.Less(text(m), text(n))))
    && (forall m :: FourDigit(m) ==> '|' !in text(m))
  }

  function BucketKey(api: Text, agent: Text, image: Text, window: Text): string {
    window + "|" + api + "|" + agent + "|" + image
  }

  function RowKey(r: Row): string {
    BucketKey(r.api, r.agent, r.image, r.window)
  }

  function StoreKey(r: Row): string {
    Key([r.window, r.api, r.agent, r.image])
  }

  // ---------------------------------------------------------------- the buckets

  datatype Bucket = Bucket(minute: int, api: Text, agent: Text, image: Text)

  function BucketOf(s: Sample): Bucket {
    Bucket(MinuteOf(s.at), s.api, s.agent, s.image)
  }

  function RowOf(text: Clock, b: Bucket, used: Amounts): Row {
    Row(text(b.minute), b.api, b.agent, b.image, used)
  }

  function LiveKeyOf(text: Clock, b: Bucket): string {
    RowKey(RowOf(text, b, NOTHING))
  }

  function StoreKeyOf(text: Clock, b: Bucket): string {
    StoreKey(RowOf(text, b, NOTHING))
  }

  /** The sum of a bucket's samples, added in the order they came. */
  function Total(ticks: seq<Sample>, b: Bucket): Amounts {
    if ticks == [] then NOTHING
    else
      var last := ticks[|ticks| - 1];
      var before := Total(ticks[..|ticks| - 1], b);
      if BucketOf(last) == b then Plus(before, last.used) else before
  }

  lemma {:induction false} TotalOfNothing(ticks: seq<Sample>, b: Bucket)
    requires forall s :: s in ticks ==> BucketOf(s) != b
    ensures Total(ticks, b) == NOTHING
  {
    if ticks != [] { TotalOfNothing(ticks[..|ticks| - 1], b); }
  }

  lemma TotalAppend(ticks: seq<Sample>, s: Sample, b: Bucket)
    ensures Total(ticks + [s], b) == if BucketOf(s) == b then Plus(Total(ticks, b), s.used) else Total(ticks, b)
  {
    assert (ticks + [s])[..|ticks|] == ticks;
  }

  // ------------------------------------------------------ sums, field by field

  function SumInts(ticks: seq<Sample>, b: Bucket, field: Amounts -> int): int {
    if ticks == [] then 0
    else
      var last := ticks[|ticks| - 1];
      SumInts(ticks[..|ticks| - 1], b, field) + if BucketOf(last) == b then field(last.used) else 0
  }

  function SumReals(ticks: seq<Sample>, b: Bucket, field: Amounts -> real): real {
    if ticks == [] then 0.0
    else
      var last := ticks[|ticks| - 1];
      SumReals(ticks[..|ticks| - 1], b, field) + if BucketOf(last) == b then field(last.used) else 0.0
  }

  /** The 64-bit number that differs from a sum by a multiple of 2 to the 64th. */
  predicate Holds64(r: int, sum: int) {
    -0x8000_0000_0000_0000 <= r < 0x8000_0000_0000_0000 && (sum - r) % 0x1_0000_0000_0000_0000 == 0
  }

  lemma HoldsMore(r: int, sum: int, x: int)
    requires Holds64(r, sum)
    ensures Holds64(Wrap64(r + x), sum + x)
  {
    var w := Wrap64(r + x);
    assert (r + x - w) % TWO_TO_THE_64 == 0;
    assert sum + x - w == (sum - r) + (r + x - w);
  }

  /** Each field of a bucket's total is the sum of that field over its samples,
      the byte counts as a 64-bit register holds them. */
  lemma {:induction false} TotalIsFieldwise(ticks: seq<Sample>, b: Bucket)
    ensures Total(ticks, b).vcpuSeconds == SumReals(ticks, b, (a: Amounts) => a.vcpuSeconds)
    ensures Total(ticks, b).gpuSeconds == SumReals(ticks, b, (a: Amounts) => a.gpuSeconds)
    ensures Holds64(Total(ticks, b).bytesIn, SumInts(ticks, b, (a: Amounts) => a.bytesIn))
    ensures Holds64(Total(ticks, b).bytesOut, SumInts(ticks, b, (a: Amounts) => a.bytesOut))
  {
    if ticks != [] {
      var init, last := ticks[..|ticks| - 1], ticks[|ticks| - 1];
      TotalIsFieldwise(init, b);
      var before := Total(init, b);
      HoldsMore(before.bytesIn, SumInts(init, b, (a: Amounts) => a.bytesIn), last.used.bytesIn);
      HoldsMore(before.bytesOut, SumInts(init, b, (a: Amounts) => a.bytesOut), last.used.bytesOut);
    }
  }

  // ------------------------------------------------------------------ the keys

  predicate BarFree(s: Text) {
    '|' !in s
  }

  predicate PlainBucket(b: Bucket) {
    BarFree(b.api) && BarFree(b.agent) && FourDigit(b.minute)
  }

  predicate PlainSample(s: Sample) {
    PlainBucket(BucketOf(s))
  }

  lemma {:induction false} FirstBar(a: string, x: string, b: string, y: string)
    requires '|' !in a && '|' !in b && a + "|" + x == b + "|" + y
    ensures a == b && x == y
  {
    var s, t := a + "|" + x, b + "|" + y;
    assert s[0] == (if a == "" then '|' else a[0]);
    assert t[0] == (if b == "" then '|' else b[0]);
    assert a == "" <==> b == "";
    if a == "" {
      assert x == s[1..] && y == t[1..];
    } else {
      assert s[1..] == a[1..] + "|" + x && t[1..] == b[1..] + "|" + y;
      FirstBar(a[1..], x, b[1..], y);
      assert a == [a[0]] + a[1..] && b == [b[0]] + b[1..];
    }
  }

  lemma TextInjective(text: Clock, m: int, n: int)
    requires Rfc3339(text) && FourDigit(m) && FourDigit(n) && text(m) == text(n)
    ensures m == n
  {
    if m != n {
      Lex.Asymmetric(text(if m < n then m else n), text(if m < n then n else m));
    }
  }

  /** Keys and agents without a bar keep the in-memory buckets apart. */
  lemma LiveKeyInjective(text: Clock, b: Bucket, c: Bucket)
    requires Rfc3339(text) && PlainBucket(b) && PlainBucket(c)
    requires LiveKeyOf(text, b) == LiveKeyOf(text, c)
    ensures b == c
  {
    var b2, c2 := b.agent + "|" + b.image, c.agent + "|" + c.image;
    var b1, c1 := b.api + "|" + b2, c.api + "|" + c2;
    assert LiveKeyOf(text, b) == text(b.minute) + "|" + b1;
    assert LiveKeyOf(text, c) == text(c.minute) + "|" + c1;
    FirstBar(text(b.minute), b1, text(c.minute), c1);
    FirstBar(b.api, b2, c.api, c2);
    FirstBar(b.agent, b.image, c.agent, c.image);
    TextInjective(text, b.minute, c.minute);
  }

  /** How many bars a text holds. */
  function Bars(s: string): nat {
    if s == "" then 0 else (if s[0] == '|' then 1 else 0) + Bars(s[1..])
  }

  lemma {:induction false} BarsAdd(a: string, b: string)
    ensures Bars(a + b) == Bars(a) + Bars(b)
  {
    if a == "" {
      assert a + b == b;
    } else {
      assert (a + b)[1..] == a[1..] + b;
      BarsAdd(a[1..], b);
    }
  }

  lemma {:induction false} NoBars(s: string)
    ensures Bars(s) == 0 <==> '|' !in s
  {
    if s != "" {
      NoBars(s[1..]);
      assert s == [s[0]] + s[1..];
    }
  }

  lemma BarsOfField(a: string, x: string)
    ensures Bars(a + "|" + x) == Bars(a) + 1 + Bars(x)
  {
    BarsAdd(a, "|");
    BarsAdd(a + "|", x);
    assert "|"[1..] == "";
  }

  lemma BarsOfKey(text: Clock, b: Bucket)
    ensures Bars(LiveKeyOf(text, b)) == Bars(text(b.minute)) + Bars(b.api) + Bars(b.agent) + Bars(b.image) + 3
  {
    BarsOfField(text(b.minute), b.api);
    BarsOfField(text(b.minute) + "|" + b.api, b.agent);
    BarsOfField(text(b.minute) + "|" + b.api + "|" + b.agent, b.image);
  }

  /** No other bucket of a four-digit year has this bucket's live key. */
  ghost predicate OwnsLiveKey(text: Clock, b: Bucket) {
    forall c: Bucket :: FourDigit(c.minute) && LiveKeyOf(text, c) == LiveKeyOf(text, b) ==> c == b
  }

  lemma BarFreeOwnsKey(text: Clock, b: Bucket, c: Bucket)
    requires Rfc3339(text) && PlainBucket(b) && BarFree(b.image) && FourDigit(c.minute)
    requires LiveKeyOf(text, c) == LiveKeyOf(text, b)
    ensures c == b
  {
    BarsOfKey(text, b);
    BarsOfKey(text, c);
    NoBars(text(b.minute));
    NoBars(text(c.minute));
    NoBars(b.api);
    NoBars(b.agent);
    NoBars(b.image);
    NoBars(c.api);
    NoBars(c.agent);
    LiveKeyInjective(text, b, c);
  }

  /** A bar in a field leaves a second reading of the key. */
  lemma BarSplits(s: Text) returns (x: Text, y: Text)
    requires !BarFree(s)
    ensures s == x + "|" + y
  {
    var i :| 0 <= i < |s| && s[i] == '|';
    x, y := s[..i], s[i + 1..];
  }

  lemma Regroup(w: string, x: string, y: string, z: string)
    ensures w + "|" + (x + "|" + y) + "|" + z == w + "|" + x + "|" + (y + "|" + z)
  {
  }

  lemma BarSharesKey(text: Clock, b: Bucket) returns (c: Bucket)
    requires |LiveKeyOf(text, b)| < 0x8000_0000_0000_0000
    requires !(BarFree(b.api) && BarFree(b.agent) && BarFree(b.image))
    ensures c != b && c.minute == b.minute && LiveKeyOf(text, c) == LiveKeyOf(text, b)
  {
    var w := text(b.minute);
    if !BarFree(b.api) {
      var x, y := BarSplits(b.api);
      c := Bucket(b.minute, x, y + "|" + b.agent, b.image);
      Regroup(w, x, y, b.agent);
      assert |x| < |b.api|;
    } else if !BarFree(b.agent) {
      var x, y := BarSplits(b.agent);
      c := Bucket(b.minute, b.api, x, y + "|" + b.image);
      Regroup(w + "|" + b.api, x, y, b.image);
      assert |x| < |b.agent|;
    } else {
      var x, y := BarSplits(b.image);
      c := Bucket(b.minute, b.api, b.agent + "|" + x, y);
      Regroup(w + "|" + b.api, b.agent, x, y);
      assert |y| < |b.image|;
    }
  }

  /** A bucket has its live key to itself exactly when its key, agent and image
      hold no bar. */
  lemma LiveKeyIsOwn(text: Clock, b: Bucket)
    requires Rfc3339(text) && FourDigit(b.minute) && |LiveKeyOf(text, b)| < 0x8000_0000_0000_0000
    ensures OwnsLiveKey(text, b) <==> BarFree(b.api) && BarFree(b.agent) && BarFree(b.image)
  {
    if BarFree(b.api) && BarFree(b.agent) && BarFree(b.image) {
      forall c: Bucket | FourDigit(c.minute) && LiveKeyOf(text, c) == LiveKeyOf(text, b) ensures c == b {
        BarFreeOwnsKey(text, b, c);
      }
    } else {
      var c := BarSharesKey(text, b);
    }
  }

  /** Stored keys are apart whatever the texts hold. */
  lemma StoreKeyInjective(text: Clock, b: Bucket, c: Bucket)
    requires Rfc3339(text) && FourDigit(b.minute) && FourDigit(c.minute)
    requires StoreKeyOf(text, b) == StoreKeyOf(text, c)
    ensures b == c
  {
    var p, q := [text(b.minute), b.api, b.agent, b.image], [text(c.minute), c.api, c.agent, c.image];
    KeyInjective(p, q);
    assert p[0] == q[0] && p[1] == q[1] && p[2] == q[2] && p[3] == q[3];
    TextInjective(text, b.minute, c.minute);
  }

  // ---------------------------------------------------------------- the queries

  /** What a query asks for, in terms of the bucket. */
  predicate Selects(q: Query, b: Bucket) {
    && (q.api == "" || q.api == b.api)
    && (q.agent == "" || q.agent == b.agent)
    && (q.image == "" || q.image == b.image)
    && (q.since.Some? ==> MinuteOf(q.since.value) <= b.minute)
    && (q.until.Some? ==> b.minute < MinuteOf(q.until.value))
  }

  /** `matchesQuery`: the bounds are compared as texts. */
  predicate Matches(text: Clock, r: Row, q: Query) {
    if q.api != "" && q.api != r.api then false
    else if q.agent != "" && q.agent != r.agent then false
    else if q.image != "" && q.image != r.image then false
    else if q.since.Some? && Lex.Less(r.window, text(MinuteOf(q.since.value))) then false
    else if q.until.Some? && !Lex.Less(r.window, text(MinuteOf(q.until.value))) then false
    else true
  }

  /** The bounds lie in four-digit years. */
  predicate PlainQuery(q: Query) {
    && (q.since.Some? ==> FourDigit(MinuteOf(q.since.value)))
    && (q.until.Some? ==> FourDigit(MinuteOf(q.until.value)))
  }

  lemma MatchesIsSelects(text: Clock, b: Bucket, used: Amounts, q: Query)
    requires Rfc3339(text) && FourDigit(b.minute) && PlainQuery(q)
    ensures Matches(text, RowOf(text, b, used), q) <==> Selects(q, b)
  {
    if q.since.Some? {
      var m := MinuteOf(q.since.value);
      assert b.minute < m <==> Lex.Less(text(b.minute), text(m));
    }
    if q.until.Some? {
      var m := MinuteOf(q.until.value);
      assert b.minute < m <==> Lex.Less(text(b.minute), text(m));
    }
  }

  predicate RowLess(a: Row, b: Row) {
    if a.window != b.window then Lex.Less(a.window, b.window)
    else if a.api != b.api then Lex.Less(a.api, b.api)
    else if a.agent != b.agent then Lex.Less(a.agent, b.agent)
    else Lex.Less(a.image, b.image)
  }

  predicate SameBucket(a: Row, b: Row) {
    a.window == b.window && a.api == b.api && a.agent == b.agent && a.image == b.image
  }

  lemma LexOrder(a: string, b: string)
    ensures a != b ==> Lex.Less(a, b) != Lex.Less(b, a)
    ensures a == b ==> !Lex.Less(a, b)
  {
    Lex.Total(a, b);
    if Lex.Less(a, b) {
      Lex.Asymmetric(a, b);
    } else if Lex.Less(b, a) {
      Lex.Asymmetric(b, a);
    }
  }

  lemma RowOrder(a: Row, b: Row)
    ensures !SameBucket(a, b) ==> RowLess(a, b) != RowLess(b, a)
    ensures SameBucket(a, b) ==> !RowLess(a, b)
  {
    LexOrder(a.window, b.window);
    LexOrder(a.api, b.api);
    LexOrder(a.agent, b.agent);
    LexOrder(a.image, b.image);
  }

  lemma LexChain(a: string, b: string, c: string)
    requires Lex.Less(a, b) && Lex.Less(b, c)
    ensures Lex.Less(a, c) && a != c && !Lex.Less(c, a)
  {
    Lex.Transitive(a, b, c);
    Lex.Asymmetric(a, c);
  }

  lemma RowChain(a: Row, b: Row, c: Row)
    requires RowLess(a, b) && RowLess(b, c)
    ensures RowLess(a, c)
  {
    if a.window != b.window && b.window != c.window {
      LexChain(a.window, b.window, c.window);
    } else if a.window == b.window == c.window {
      if a.api != b.api && b.api != c.api {
        LexChain(a.api, b.api, c.api);
      } else if a.api == b.api == c.api {
        if a.agent != b.agent && b.agent != c.agent {
          LexChain(a.agent, b.agent, c.agent);
        } else if a.agent == b.agent == c.agent {
          LexChain(a.image, b.image, c.image);
        }
      }
    }
  }
}
