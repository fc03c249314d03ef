/** util.c stratum_notify and cpu-miner.c stratum_gen_work: the extranonce inside the coinbase. */
module StratumWork {
  import opened Words
  import opened Radix
  import opened Sha256Spec
  import opened HeaderHash
  import opened Merkle

  // ----- the extranonce as a counter -----

  /** The `size` low bytes of `k`, least significant first. */
  function Counter(k: nat, size: nat): (s: seq<byte>)
    ensures |s| == size
  {
    if size == 0 then [] else [k % 0x100] + Counter(k / 0x100, size - 1)
  }

  /** What adding one with carry does to the bytes. */
  function Incremented(s: seq<byte>): (r: seq<byte>)
    ensures |r| == |s|
  {
    if s == [] then [] else if s[0] == 0xff then [0] + Incremented(s[1..]) else [s[0] + 1] + s[1..]
  }

  /** The counter counts. */
  lemma {:induction false} CounterCounts(k: nat, size: nat)
    ensures Incremented(Counter(k, size)) == Counter(k + 1, size)
  {
    if size > 0 {
      var s := Counter(k, size);
      assert s[1..] == Counter(k / 0x100, size - 1);
      CounterCounts(k / 0x100, size - 1);
      Carry(k);
    }
  }

  lemma Carry(k: nat)
    ensures (k + 1) / 0x100 == if k % 0x100 == 0xff then k / 0x100 + 1 else k / 0x100
    ensures (k + 1) % 0x100 == if k % 0x100 == 0xff then 0 else k % 0x100 + 1
  {
  }

  /** Read as a number, it is `k` modulo 256^size. */
  lemma {:induction false} CounterValue(k: nat, size: nat)
    ensures Power(0x100, size) > 0 && LittleEndian(Counter(k, size)) == k % Power(0x100, size)
  {
    if size > 0 {
      CounterValue(k / 0x100, size - 1);
      assert Counter(k, size)[1..] == Counter(k / 0x100, size - 1);
      ModStep(k, Power(0x100, size - 1));
    }
  }

  lemma ModStep(k: nat, p: nat)
    requires p > 0
    ensures 0x100 * p > 0 && k % (0x100 * p) == k % 0x100 + 0x100 * (k / 0x100 % p)
  {
    var q, m := k / 0x100 / p, k / 0x100 % p;
    assert k / 0x100 == q * p + m;
    Regroup(q, 0x100, p);
    DivModUnique(k, 0x100 * p, q, k % 0x100 + 0x100 * m);
  }

  /** Every extranonce is a count. */
  lemma {:induction false} CounterOf(s: seq<byte>)
    ensures Counter(LittleEndian(s), |s|) == s
  {
    if s != [] {
      CounterOf(s[1..]);
      assert s == [s[0]] + s[1..];
    }
  }

  /** A new job starts the count. */
  lemma StartsAtZero(size: nat)
    ensures Zeros(size) == Counter(0, size)
  {
    if size > 0 {
      StartsAtZero(size - 1);
    }
  }

  // ----- jobs -----

  /** A Stratum job: the two coinbase parts that the pool sends, and between them the extranonce of the
      connection and the one that counts. */
  datatype Job = Job(id: string, coinb1: seq<byte>, xnonce1: seq<byte>, extranonce: seq<byte>, coinb2: seq<byte>)

  datatype Op = Generate | Notify(id: string, coinb1: seq<byte>, coinb2: seq<byte>)

  function NewJob(id: string, coinb1: seq<byte>, xnonce1: seq<byte>, size: nat, coinb2: seq<byte>): Job {
    Job(id, coinb1, xnonce1, Zeros(size), coinb2)
  }

  /** The coinbase of a job. */
  function Whole(j: Job): seq<byte> {
    Glue(j.coinb1, j.xnonce1, j.extranonce, j.coinb2)
  }

  /** A notification for the same job whose first part lets the extranonce stand inside the old coinbase. Beyond
      that end realloc leaves bytes that no specification knows. */
  predicate Placed(j: Job, op: Op) {
    op.Notify? && op.id == j.id ==> |op.coinb1| <= |j.coinb1| + |j.coinb2|
  }

  /** A new job starts at zero; the same job goes on with the bytes that the old coinbase has at the place. */
  function Next(j: Job, op: Op): (r: Job)
    requires Placed(j, op)
    ensures |r.extranonce| == |j.extranonce|
  {
    match op
    case Generate => j.(extranonce := Incremented(j.extranonce))
    case Notify(id, coinb1, coinb2) =>
      var at, n := |coinb1| + |j.xnonce1|, |j.extranonce|;
      Job(id, coinb1, j.xnonce1, if id == j.id then Whole(j)[at..at + n] else Zeros(n), coinb2)
  }

  predicate PlacedRun(j: Job, ops: seq<Op>)
    decreases |ops|
  {
    ops == [] || (Placed(j, ops[0]) && PlacedRun(Next(j, ops[0]), ops[1..]))
  }

  /** The extranonces of the works generated, in order. */
  function Works(j: Job, ops: seq<Op>): seq<seq<byte>>
    requires PlacedRun(j, ops)
    decreases |ops|
  {
    if ops == [] then []
    else (if ops[0].Generate? then [j.extranonce] else []) + Works(Next(j, ops[0]), ops[1..])
  }

  function Generated(ops: seq<Op>): nat {
    if ops == [] then 0 else (if ops[0].Generate? then 1 else 0) + Generated(ops[1..])
  }

  /** A notification for the same job with a first part of the same length. */
  predicate Steady(j: Job, op: Op) {
    op.Notify? ==> op.id == j.id && |op.coinb1| == |j.coinb1|
  }

  predicate SteadyRun(j: Job, ops: seq<Op>) {
    forall i | 0 <= i < |ops| :: Steady(j, ops[i])
  }

  lemma SteadyNext(j: Job, op: Op)
    requires Steady(j, op)
    ensures Placed(j, op) && forall o :: Steady(Next(j, op), o) <==> Steady(j, o)
    ensures Next(j, op).extranonce == if op.Generate? then Incremented(j.extranonce) else j.extranonce
  {
  }

  /** The k-th work generated has the k-th extranonce. */
  lemma {:induction false} WorksCount(j: Job, ops: seq<Op>, n: nat)
    requires SteadyRun(j, ops) && j.extranonce == Counter(n, |j.extranonce|)
    ensures PlacedRun(j, ops) && |Works(j, ops)| == Generated(ops)
    ensures forall k | 0 <= k < |Works(j, ops)| :: Works(j, ops)[k] == Counter(n + k, |j.extranonce|)
    decreases |ops|
  {
    hide Counter, Incremented, Steady, Next;
    if ops != [] {
      SteadyNext(j, ops[0]);
      CounterCounts(n, |j.extranonce|);
      WorksCount(Next(j, ops[0]), ops[1..], if ops[0].Generate? then n + 1 else n);
    }
  }

  /** No two works of a job have the same extranonce, unless a multiple of 256^size lies between them. */
  lemma NoRepeat(j: Job, ops: seq<Op>, k: nat, l: nat)
    requires SteadyRun(j, ops) && k < l < Generated(ops)
    ensures Power(0x100, |j.extranonce|) > 0 && PlacedRun(j, ops) && |Works(j, ops)| == Generated(ops)
    ensures Works(j, ops)[k] == Works(j, ops)[l] <==> (l - k) % Power(0x100, |j.extranonce|) == 0
  {
    hide SteadyRun, PlacedRun, Works, Generated, Counter, LittleEndian;
    var n, size := LittleEndian(j.extranonce), |j.extranonce|;
    CounterOf(j.extranonce);
    WorksCount(j, ops, n);
    CounterValue(n + k, size);
    CounterValue(n + l, size);
    var p := Power(0x100, size);
    if (n + k) % p == (n + l) % p {
      SameThenMultiple(n + k, n + l, p);
      SameCounter(n + k, n + l, size);
    } else if (n + l - (n + k)) % p == 0 {
      MultipleThenSame(n + k, n + l, p);
    }
  }

  /** The works of a new job count from zero. */
  lemma NewJobCounts(j: Job, ops: seq<Op>, k: nat)
    requires SteadyRun(j, ops) && j.extranonce == Zeros(|j.extranonce|) && k < Generated(ops)
    ensures PlacedRun(j, ops) && |Works(j, ops)| == Generated(ops)
    ensures LittleEndian(Works(j, ops)[k]) == k % Power(0x100, |j.extranonce|)
  {
    hide SteadyRun, PlacedRun, Works, Generated, Counter, LittleEndian, Zeros;
    StartsAtZero(|j.extranonce|);
    WorksCount(j, ops, 0);
    CounterValue(k, |j.extranonce|);
  }

  lemma Difference(q: nat, q': nat, r: nat, p: nat)
    requires r < p && q * p + r <= q' * p + r
    ensures (q' * p + r - (q * p + r)) % p == 0
  {
    Distribute(q', 0 - q, p);
    if q' < q {
      Monotone(q' + 1, q, p);
      Distribute(q', 1, p);
    }
    DivModUnique(q' * p - q * p, p, q' - q, 0);
  }

  lemma Sum(q: nat, r: nat, d: nat, p: nat)
    requires r < p
    ensures (q * p + r + d * p) % p == r
  {
    Distribute(q, d, p);
    DivModUnique(q * p + r + d * p, p, q + d, r);
  }

  lemma Euclid(n: nat, p: nat)
    requires p > 0
    ensures n == n / p * p + n % p && n % p < p
  {
  }

  lemma SameThenMultiple(a: nat, b: nat, p: nat)
    requires p > 0 && a <= b && a % p == b % p
    ensures (b - a) % p == 0
  {
    Euclid(a, p);
    Euclid(b, p);
    Difference(a / p, b / p, a % p, p);
  }

  lemma MultipleThenSame(a: nat, b: nat, p: nat)
    requires p > 0 && a <= b && (b - a) % p == 0
    ensures a % p == b % p
  {
    Euclid(a, p);
    Euclid(b - a, p);
    Sum(a / p, a % p, (b - a) / p, p);
  }

  lemma {:induction false} SameCounter(a: nat, b: nat, size: nat)
    requires Power(0x100, size) > 0 && a % Power(0x100, size) == b % Power(0x100, size)
    ensures Counter(a, size) == Counter(b, size)
  {
    if size > 0 {
      var p := Power(0x100, size - 1);
      ModStep(a, p);
      ModStep(b, p);
      SameCounter(a / 0x100, b / 0x100, size - 1);
    }
  }

  // ----- first parts of another length -----

  function Count(k: nat): (ops: seq<Op>)
    ensures |ops| == k
  {
    seq(k, _ => Generate)
  }

  /** After `k` works the rest of a run goes on from the count reached. */
  lemma {:induction false} AfterCount(j: Job, n: nat, k: nat, rest: seq<Op>)
    requires j.extranonce == Counter(n, |j.extranonce|)
    requires PlacedRun(j.(extranonce := Counter(n + k, |j.extranonce|)), rest)
    ensures PlacedRun(j, Count(k) + rest) && |Works(j, Count(k) + rest)| >= k
    ensures Works(j, Count(k) + rest)[k..] == Works(j.(extranonce := Counter(n + k, |j.extranonce|)), rest)
    decreases k
  {
    hide Counter, Incremented;
    if k == 0 {
      assert Count(0) + rest == rest;
    } else {
      CounterCounts(n, |j.extranonce|);
      var ops := Count(k) + rest;
      assert ops[0] == Generate && ops[1..] == Count(k - 1) + rest;
      AfterCount(Next(j, Generate), n + 1, k - 1, rest);
    }
  }

  /** The last work before the notification and the first one after it have the same extranonce. */
  ghost predicate Repeats(j: Job, k: nat, op: Op) {
    var ops := Count(k + 1) + [op, Generate];
    PlacedRun(j, ops) && |Works(j, ops)| == k + 2 && Works(j, ops)[k] == Works(j, ops)[k + 1]
  }

  ghost predicate IsNewJob(j: Job, id: string, xnonce1: seq<byte>, size: nat, a: nat, b: nat) {
    j == NewJob(id, j.coinb1, xnonce1, size, j.coinb2) && |j.coinb1| == a && |j.coinb2| == b
  }

  lemma SteadyNeverRepeats(j: Job, k: nat, op: Op)
    requires j.extranonce != [] && Steady(j, op)
    ensures !Repeats(j, k, op)
  {
    hide Steady, PlacedRun, Works, Generated, Next;
    var ops := Count(k + 1) + [op, Generate];
    forall i | 0 <= i < |ops| ensures Steady(j, ops[i]) {
      SteadyGenerate(j);
    }
    assert Power(0x100, |j.extranonce|) == 0x100 * Power(0x100, |j.extranonce| - 1);
    CounterOf(j.extranonce);
    WorksCount(j, ops, LittleEndian(j.extranonce));
    if |Works(j, ops)| == k + 2 {
      NoRepeat(j, ops, k, k + 1);
    }
  }

  lemma SteadyGenerate(j: Job)
    ensures Steady(j, Generate)
  {
  }

  lemma FirstStep(j: Job, op: Op, rest: seq<Op>)
    requires Placed(j, op) && PlacedRun(Next(j, op), rest)
    ensures PlacedRun(j, [op] + rest)
    ensures Works(j, [op] + rest) == (if op.Generate? then [j.extranonce] else []) + Works(Next(j, op), rest)
  {
    hide Placed, Next;
    assert ([op] + rest)[1..] == rest;
  }

  lemma NextGenerate(j: Job)
    ensures Placed(j, Generate) && Next(j, Generate) == j.(extranonce := Incremented(j.extranonce))
  {
  }

  lemma LastStep(j: Job)
    ensures PlacedRun(j, [Generate]) && Works(j, [Generate]) == [j.extranonce]
  {
    hide Next;
    assert [Generate][1..] == [];
    NoWorks(Next(j, Generate), []);
  }

  lemma OneMore(j: Job, op: Op)
    requires op.Notify? && Placed(j.(extranonce := Incremented(j.extranonce)), op)
    ensures var ops, j' := [Generate, op, Generate], Next(j.(extranonce := Incremented(j.extranonce)), op);
            PlacedRun(j, ops) && Works(j, ops) == [j.extranonce, j'.extranonce]
  {
    hide Incremented, PlacedRun, Works, Next, Placed;
    NextGenerate(j);
    var j1 := j.(extranonce := Incremented(j.extranonce));
    var j2 := Next(j1, op);
    NextGenerate(j2);
    var last: seq<Op> := [Generate];
    LastStep(j2);
    FirstStep(j1, op, last);
    assert [op] + last == [op, Generate];
    FirstStep(j, Generate, [op, Generate]);
    assert [Generate] + [op, Generate] == [Generate, op, Generate];
  }

  /** A count that the notification puts back to where it stood before the last work. */
  lemma RepeatsWhen(j: Job, x: seq<byte>, op: Op)
    requires j.extranonce == Zeros(|x|) && op.Notify?
    requires Placed(j.(extranonce := Incremented(x)), op)
    requires Next(j.(extranonce := Incremented(x)), op).extranonce == x
    ensures Repeats(j, LittleEndian(x), op)
  {
    hide Incremented, Next, PlacedRun, Works, Counter, Zeros, Placed;
    var k, last := LittleEndian(x), [Generate, op, Generate];
    CounterOf(x);
    StartsAtZero(|x|);
    OneMore(j.(extranonce := x), op);
    AfterCount(j, 0, k, last);
    var ops := Count(k) + last;
    assert ops == Count(k + 1) + [op, Generate];
    var w := Works(j, ops);
    assert w[k..] == [x, x];
    assert w[k] == w[k..][0] && w[k + 1] == w[k..][1];
  }

  /** A longer first part puts the place onto zeros of the count and of the old second part. */
  lemma LongerRepeats(id: string, xnonce1: seq<byte>, size: nat, a: nat, b: nat, a': nat)
    requires 0 < size && a < a' <= a + b
    ensures Repeats(NewJob(id, Zeros(a), xnonce1, size, Zeros(b)), LittleEndian(Zeros(size)), Notify(id, Zeros(a'), []))
  {
    hide Repeats, LittleEndian;
    var j, op, x := NewJob(id, Zeros(a), xnonce1, size, Zeros(b)), Notify(id, Zeros(a'), []), Zeros(size);
    assert Incremented(x) == [1] + Zeros(size)[1..];
    var j' := j.(extranonce := Incremented(x));
    var at := a' + |xnonce1|;
    assert Whole(j')[at..at + size] == x;
    RepeatsWhen(j, x, op);
  }

  lemma {:induction false} IncrementedPrefix(s: seq<byte>, i: nat)
    requires i <= |s|
    ensures Incremented(s)[..i] == Incremented(s[..i])
  {
    if i > 0 {
      IncrementedPrefix(s[1..], i - 1);
      assert s[..i][1..] == s[1..][..i - 1];
    }
  }

  /** The count that, one further and behind the bytes `p`, shows itself again at the start. */
  function Fixed(p: seq<byte>, size: nat): (x: seq<byte>)
    requires p != []
    ensures |x| == size
  {
    if size == 0 then [] else (p + Incremented(Fixed(p, size - 1)))[..size]
  }

  lemma {:induction false} FixedReturns(p: seq<byte>, size: nat)
    requires p != []
    ensures (p + Incremented(Fixed(p, size)))[..size] == Fixed(p, size)
  {
    if size > 0 {
      hide Incremented;
      var w, x := Fixed(p, size - 1), Fixed(p, size);
      FixedReturns(p, size - 1);
      assert x[..size - 1] == (p + Incremented(w))[..size - 1] == w;
      IncrementedPrefix(x, size - 1);
      assert forall i | 0 <= i < size - 1 :: Incremented(x)[i] == Incremented(x)[..size - 1][i] == Incremented(w)[i];
      assert forall i | 0 <= i < size ::
          (p + Incremented(x))[i] == if i < |p| then p[i] else Incremented(x)[i - |p|];
    }
  }

  /** A shorter first part puts the place onto the bytes before the count, which for one count of the job
      read the same again. */
  lemma ShorterRepeats(id: string, xnonce1: seq<byte>, size: nat, a: nat, b: nat, a': nat)
    requires 0 < size && a' < a
    ensures var p := (Zeros(a) + xnonce1)[|xnonce1| + a'..];
            Repeats(NewJob(id, Zeros(a), xnonce1, size, Zeros(b)), LittleEndian(Fixed(p, size)),
                    Notify(id, Zeros(a'), []))
  {
    hide Repeats, LittleEndian, Incremented, Fixed;
    var j, op := NewJob(id, Zeros(a), xnonce1, size, Zeros(b)), Notify(id, Zeros(a'), []);
    var p := (Zeros(a) + xnonce1)[|xnonce1| + a'..];
    var x := Fixed(p, size);
    var j' := j.(extranonce := Incremented(x));
    var at := a' + |xnonce1|;
    FixedReturns(p, size);
    assert Whole(j')[at..] == p + Incremented(x) + Zeros(b);
    assert Whole(j')[at..at + size] == Whole(j')[at..][..size] == (p + Incremented(x))[..size];
    RepeatsWhen(j, x, op);
  }

  /** The length of the first part decides: if it changes within a job, then for some contents an extranonce is
      handed out twice in a row, counting from the notification that began the job; if not, then never. */
  lemma FirstPartDecides(id: string, xnonce1: seq<byte>, size: nat, a: nat, b: nat, a': nat)
    requires 0 < size && a' <= a + b
    ensures a' != a <==>
            exists j: Job, k: nat, coinb1: seq<byte>, coinb2: seq<byte> ::
              && IsNewJob(j, id, xnonce1, size, a, b) && |coinb1| == a'
              && Repeats(j, k, Notify(id, coinb1, coinb2))
  {
    hide Repeats, Fixed, LittleEndian;
    if a' == a {
      forall j: Job, k: nat, coinb1: seq<byte>, coinb2: seq<byte>
        | IsNewJob(j, id, xnonce1, size, a, b) && |coinb1| == a'
        ensures !Repeats(j, k, Notify(id, coinb1, coinb2))
      {
        SteadyNeverRepeats(j, k, Notify(id, coinb1, coinb2));
      }
    } else {
      assert IsNewJob(NewJob(id, Zeros(a), xnonce1, size, Zeros(b)), id, xnonce1, size, a, b);
      assert |Zeros(a')| == a';
      if a < a' {
        LongerRepeats(id, xnonce1, size, a, b, a');
      } else {
        ShorterRepeats(id, xnonce1, size, a, b, a');
      }
    }
  }

  // ----- the connection -----

  lemma IncrementedTail(s: seq<byte>, i: nat)
    requires i < |s|
    ensures Incremented(s[i..]) == if s[i] == 0xff then [0] + Incremented(s[i + 1..]) else [s[i] + 1] + s[i + 1..]
  {
    assert s[i..][1..] == s[i + 1..];
  }

  /** The parts of a coinbase whose extranonce stands at `at`. */
  function Parts(id: string, coinbase: seq<byte>, at: nat, len1: nat, len2: nat): (j: Job)
    requires len1 <= at && at + len2 <= |coinbase|
  {
    Job(id, coinbase[..at - len1], coinbase[at - len1..at], coinbase[at..at + len2], coinbase[at + len2..])
  }

  class StratumCtx {
    var xnonce1: seq<byte>
    var xnonce2Size: nat
    var hasJob: bool
    var jobId: string
    /** The whole coinbase, and where the extranonce stands in it. */
    var coinbase: array<byte>
    var xnonce2: nat
    var merkle: seq<Node>

    predicate Valid()
      reads this, coinbase
    {
      hasJob ==>
        && |xnonce1| <= xnonce2 && xnonce2 + xnonce2Size <= coinbase.Length
        && coinbase[xnonce2 - |xnonce1|..xnonce2] == xnonce1
    }

    function TheJob(): Job
      requires Valid() && hasJob
      reads this, coinbase
    {
      Parts(jobId, coinbase[..], xnonce2, |xnonce1|, xnonce2Size)
    }

    /** A connection after mining.subscribe, which gives the first extranonce and the size of the second. */
    constructor (xnonce1: seq<byte>, xnonce2Size: nat)
      ensures Valid() && !hasJob && this.xnonce1 == xnonce1 && this.xnonce2Size == xnonce2Size && fresh(coinbase)
    {
      this.xnonce1, this.xnonce2Size := xnonce1, xnonce2Size;
      hasJob, jobId, xnonce2, merkle := false, "", 0, [];
      coinbase := new byte[0];
    }

    /** realloc: a buffer of another size with the old bytes, as far as both go. */
    method Realloc(size: nat)
      modifies this`coinbase
      ensures fresh(coinbase) && coinbase.Length == size
      ensures forall k | 0 <= k < size && k < old(coinbase.Length) :: coinbase[k] == old(coinbase[k])
    {
      var buf := new byte[size];
      for k := 0 to size
        modifies buf
        invariant forall i | 0 <= i < k && i < coinbase.Length :: buf[i] == coinbase[i]
      {
        if k < coinbase.Length {
          buf[k] := coinbase[k];
        }
      }
      coinbase := buf;
    }

    /** Copies bytes into the coinbase. */
    method Write(at: nat, s: seq<byte>)
      requires at + |s| <= coinbase.Length
      modifies coinbase
      ensures coinbase[..] == Overwritten(old(coinbase[..]), at, s)
    {
      for k := 0 to |s|
        modifies coinbase
        invariant coinbase[at..at + k] == s[..k]
        invariant coinbase[..at] == old(coinbase[..at]) && coinbase[at + |s|..] == old(coinbase[at + |s|..])
      {
        ghost var done := coinbase[at..at + k];
        coinbase[at + k] := s[k];
        assert coinbase[at..at + k + 1] == done + [s[k]];
      }
      assert coinbase[..] == coinbase[..at] + coinbase[at..at + |s|] + coinbase[at + |s|..];
    }

    /** Fills the four parts of the buffer, the extranonce only for a new job. */
    method WriteParts(coinb1: seq<byte>, coinb2: seq<byte>, zero: bool)
      requires coinbase.Length == |coinb1| + |xnonce1| + xnonce2Size + |coinb2|
      modifies coinbase
      ensures var kept := Split(old(coinbase[..]), |coinb1|, |xnonce1|, xnonce2Size).2;
              coinbase[..] == Glue(coinb1, xnonce1, if zero then Zeros(xnonce2Size) else kept, coinb2)
    {
      hide Split, Zeros, Overwritten, Glue;
      ghost var p := Split(coinbase[..], |coinb1|, |xnonce1|, xnonce2Size);
      Write(0, coinb1);
      Replaced0(p.0, coinb1, p.1, p.2, p.3);
      Write(|coinb1|, xnonce1);
      Replaced1(coinb1, p.1, xnonce1, p.2, p.3);
      ghost var x := p.2;
      if zero {
        Write(|coinb1| + |xnonce1|, Zeros(xnonce2Size));
        Replaced2(coinb1, xnonce1, p.2, Zeros(xnonce2Size), p.3);
        x := Zeros(xnonce2Size);
      }
      Write(|coinb1| + |xnonce1| + xnonce2Size, coinb2);
      Replaced3(coinb1, xnonce1, x, p.3, coinb2);
    }

    /** Puts the parts of a notification into a buffer of the right size. */
    method Rebuild(coinb1: seq<byte>, coinb2: seq<byte>, zero: bool) returns (ghost x: seq<byte>)
      modifies this`coinbase, this`xnonce2
      ensures fresh(coinbase) && xnonce2 == |coinb1| + |xnonce1| && |x| == xnonce2Size
      ensures coinbase[..] == Glue(coinb1, xnonce1, x, coinb2)
      ensures if zero then x == Zeros(xnonce2Size)
              else xnonce2 + xnonce2Size <= |old(coinbase[..])| ==>
                     x == old(coinbase[..])[xnonce2..xnonce2 + xnonce2Size]
    {
      hide Split, Zeros, Glue;
      ghost var was := coinbase[..];
      Realloc(|coinb1| + |xnonce1| + xnonce2Size + |coinb2|);
      xnonce2 := |coinb1| + |xnonce1|;
      ghost var kept := Split(coinbase[..], |coinb1|, |xnonce1|, xnonce2Size).2;
      KeptBytes(coinbase[..], was, |coinb1|, |xnonce1|, xnonce2Size);
      WriteParts(coinb1, coinb2, zero);
      x := if zero then Zeros(xnonce2Size) else kept;
    }

    /** The coinbase part of stratum_notify. For a new job the extranonce starts at zero; otherwise it is
        whatever the old buffer holds at the place. */
    method Notify(id: string, coinb1: seq<byte>, coinb2: seq<byte>, branch: seq<Node>)
      requires Valid()
      modifies this
      ensures Valid() && hasJob && fresh(coinbase) && merkle == branch
      ensures xnonce1 == old(xnonce1) && xnonce2Size == old(xnonce2Size)
      ensures coinbase.Length == |coinb1| + |xnonce1| + xnonce2Size + |coinb2|
      ensures TheJob() == Job(id, coinb1, xnonce1, TheJob().extranonce, coinb2)
      ensures !old(hasJob) || id != old(jobId) ==> TheJob() == NewJob(id, coinb1, xnonce1, xnonce2Size, coinb2)
      ensures old(hasJob) && Placed(old(TheJob()), Op.Notify(id, coinb1, coinb2)) ==>
                TheJob() == Next(old(TheJob()), Op.Notify(id, coinb1, coinb2))
    {
      hide Parts, Zeros, Glue, Placed, Next;
      ghost var x := Rebuild(coinb1, coinb2, !hasJob || jobId != id);
      PartsOf(id, coinb1, xnonce1, x, coinb2, coinbase[..]);
      if old(hasJob) {
        NextJob(old(TheJob()), old(jobId), old(coinbase[..]), old(xnonce2), |xnonce1|, xnonce2Size,
                Op.Notify(id, coinb1, coinb2));
      }
      hasJob, jobId, merkle := true, id, branch;
    }

    /** Adds one to the extranonce: the carry goes on while a byte becomes zero. */
    method Increment()
      requires xnonce2 + xnonce2Size <= coinbase.Length
      modifies coinbase
      ensures coinbase[..] == Overwritten(old(coinbase[..]), xnonce2,
                                          Incremented(old(coinbase[xnonce2..xnonce2 + xnonce2Size])))
    {
      hide Incremented, Overwritten, Zeros;
      ghost var b, s := coinbase[..], coinbase[xnonce2..xnonce2 + xnonce2Size];
      OverwrittenStart(b, xnonce2, s);
      var i := 0;
      while i < xnonce2Size
        invariant i <= xnonce2Size
        invariant coinbase[..] == Overwritten(b, xnonce2, Zeros(i))
        invariant Incremented(s) == Zeros(i) + Incremented(s[i..])
      {
        IncrementStep(b, xnonce2, xnonce2Size, i);
        var v: int := coinbase[xnonce2 + i];
        coinbase[xnonce2 + i] := (v + 1) % 0x100;
        if coinbase[xnonce2 + i] != 0 {
          return;
        }
        i := i + 1;
      }
      assert s[i..] == [];
      IncrementedNone();
      assert Zeros(i) + [] == Zeros(i);
    }

    /** The coinbase part of stratum_gen_work: takes the extranonce, hashes up to the Merkle root, and counts. */
    method Generate() returns (extranonce: seq<byte>, root: array<byte>)
      requires Valid() && hasJob && coinbase.Length < 0x1000_0000
      modifies coinbase
      ensures Valid() && TheJob() == Next(old(TheJob()), Op.Generate)
      ensures extranonce == old(TheJob()).extranonce
      ensures old(coinbase[..]) == Whole(old(TheJob()))
      ensures fresh(root) && root.Length == 64 && root[..32] == FoldBranch(Sha256d(old(coinbase[..])), merkle)
    {
      hide Incremented, Overwritten, Sha256Spec.Sha256d, FoldBranch, Next, Parts, Whole;
      ghost var b := coinbase[..];
      extranonce := coinbase[xnonce2..xnonce2 + xnonce2Size];
      PartsWhole(jobId, b, xnonce2, |xnonce1|, xnonce2Size);
      root := new byte[64](_ => 0);
      GenerateRoot(root, coinbase, coinbase.Length, merkle);
      assert coinbase[..coinbase.Length] == b;
      ghost var r := root[..32];
      IncrementedParts(jobId, b, xnonce2, |xnonce1|, xnonce2Size);
      Increment();
      assert coinbase[xnonce2 - |xnonce1|..xnonce2] == coinbase[..][xnonce2 - |xnonce1|..xnonce2];
      assert b[xnonce2 - |xnonce1|..xnonce2] == xnonce1;
      assert root[..32] == r;
    }
  }

  lemma RunStep(j: Job, ops: seq<Op>, i: nat)
    requires i < |ops| && PlacedRun(j, ops[i..])
    ensures Placed(j, ops[i]) && PlacedRun(Next(j, ops[i]), ops[i + 1..])
    ensures Works(j, ops[i..]) ==
            (if ops[i].Generate? then [j.extranonce] else []) + Works(Next(j, ops[i]), ops[i + 1..])
  {
    hide Next, Placed;
    assert ops[i..][1..] == ops[i + 1..];
  }

  /** The coinbase fits the buffer length that the hash functions take; `size` is that of both extranonces. */
  predicate Hashable(op: Op, size: nat) {
    op.Notify? ==> |op.coinb1| + size + |op.coinb2| < 0x1000_0000
  }

  /** One operation on a connection, and the works it generates. */
  method Perform(c: StratumCtx, op: Op) returns (works: seq<seq<byte>>)
    requires c.Valid() && c.hasJob && c.coinbase.Length < 0x1000_0000 && Placed(c.TheJob(), op)
    requires Hashable(op, |c.xnonce1| + c.xnonce2Size)
    modifies c, c.coinbase
    ensures c.Valid() && c.hasJob && c.coinbase.Length < 0x1000_0000
    ensures c.coinbase == old(c.coinbase) || fresh(c.coinbase)
    ensures c.xnonce1 == old(c.xnonce1) && c.xnonce2Size == old(c.xnonce2Size)
    ensures c.TheJob() == Next(old(c.TheJob()), op)
    ensures works == if op.Generate? then [old(c.TheJob()).extranonce] else []
  {
    hide Next, Placed;
    works := [];
    match op
    case Generate =>
      var x, _ := c.Generate();
      works := [x];
    case Notify(id, coinb1, coinb2) =>
      c.Notify(id, coinb1, coinb2, c.merkle);
  }

  /** A run on a connection generates the works of the specification. */
  method Run(c: StratumCtx, ops: seq<Op>) returns (works: seq<seq<byte>>)
    requires c.Valid() && c.hasJob && c.coinbase.Length < 0x1000_0000 && PlacedRun(c.TheJob(), ops)
    requires forall i | 0 <= i < |ops| :: Hashable(ops[i], |c.xnonce1| + c.xnonce2Size)
    modifies c, c.coinbase
    ensures works == Works(old(c.TheJob()), ops)
  {
    hide Next, Placed, PlacedRun, Works, Hashable;
    works := [];
    assert ops[0..] == ops;
    for i := 0 to |ops|
      invariant c.Valid() && c.hasJob && c.coinbase.Length < 0x1000_0000
      invariant c.coinbase == old(c.coinbase) || fresh(c.coinbase)
      invariant c.xnonce1 == old(c.xnonce1) && c.xnonce2Size == old(c.xnonce2Size)
      invariant PlacedRun(c.TheJob(), ops[i..])
      invariant works + Works(c.TheJob(), ops[i..]) == Works(old(c.TheJob()), ops)
    {
      ghost var j := c.TheJob();
      RunStep(j, ops, i);
      var more := Perform(c, ops[i]);
      Associate(works, more, Works(Next(j, ops[i]), ops[i + 1..]));
      works := works + more;
    }
    NoWorks(c.TheJob(), ops[|ops|..]);
    assert works + [] == works;
  }

  /** The notification of a new job and any run of that job whose first parts keep their length: the works have
      the extranonces 0, 1, 2 and so on, as long as there are more, and then start again. */
  method RunNewJob(c: StratumCtx, id: string, coinb1: seq<byte>, coinb2: seq<byte>, branch: seq<Node>, ops: seq<Op>)
      returns (works: seq<seq<byte>>)
    requires c.Valid() && (!c.hasJob || id != c.jobId)
    requires SteadyRun(NewJob(id, coinb1, c.xnonce1, c.xnonce2Size, coinb2), ops)
    requires Hashable(Op.Notify(id, coinb1, coinb2), |c.xnonce1| + c.xnonce2Size)
    requires forall i | 0 <= i < |ops| :: Hashable(ops[i], |c.xnonce1| + c.xnonce2Size)
    modifies c
    ensures |works| == Generated(ops)
    ensures forall k | 0 <= k < |works| ::
              |works[k]| == old(c.xnonce2Size) && LittleEndian(works[k]) == k % Power(0x100, old(c.xnonce2Size))
  {
    hide SteadyRun, PlacedRun, Works, Generated, LittleEndian;
    c.Notify(id, coinb1, coinb2, branch);
    ghost var j := c.TheJob();
    StartsAtZero(c.xnonce2Size);
    WorksCount(j, ops, 0);
    works := Run(c, ops);
    forall k | 0 <= k < |works|
      ensures LittleEndian(works[k]) == k % Power(0x100, |j.extranonce|)
    {
      NewJobCounts(j, ops, k);
    }
  }

  lemma NoWorks(j: Job, ops: seq<Op>)
    requires ops == []
    ensures PlacedRun(j, ops) && Works(j, ops) == []
  {
  }

  lemma IncrementedParts(id: string, b: seq<byte>, at: nat, len1: nat, len2: nat)
    requires len1 <= at && at + len2 <= |b|
    ensures var t := Overwritten(b, at, Incremented(b[at..at + len2]));
            && Parts(id, b, at, len1, len2).extranonce == b[at..at + len2]
            && Parts(id, t, at, len1, len2) == Next(Parts(id, b, at, len1, len2), Generate)
            && t[at - len1..at] == b[at - len1..at]
  {
    hide Incremented;
    var x := Incremented(b[at..at + len2]);
    var t := Overwritten(b, at, x);
    assert t[..at] == b[..at];
    assert t[..at - len1] == t[..at][..at - len1] == b[..at][..at - len1] == b[..at - len1];
    assert t[at - len1..at] == t[..at][at - len1..] == b[..at][at - len1..] == b[at - len1..at];
    assert t[at..at + len2] == x;
    assert t[at + len2..] == b[at + len2..];
  }

  lemma PartsWhole(id: string, b: seq<byte>, at: nat, len1: nat, len2: nat)
    requires len1 <= at && at + len2 <= |b|
    ensures Whole(Parts(id, b, at, len1, len2)) == b
  {
    assert b[..at - len1] + b[at - len1..at] == b[..at];
    assert b[..at] + b[at..at + len2] == b[..at + len2];
    assert b[..at + len2] + b[at + len2..] == b;
  }

  /** What Generate hashes: the first part, the extranonce of the connection, the one that counts, the second part. */
  lemma WholeIs(j: Job)
    ensures Whole(j) == j.coinb1 + j.xnonce1 + j.extranonce + j.coinb2
  {
  }

  lemma IncrementedNone()
    ensures Incremented([]) == []
  {
  }

  /** One byte of the increment: the carry goes on, or everything is done. */
  lemma IncrementStep(b: seq<byte>, at: nat, size: nat, i: nat)
    requires i < size && at + size <= |b|
    requires Incremented(b[at..at + size]) == Zeros(i) + Incremented(b[at..at + size][i..])
    ensures var s, o, v := b[at..at + size], Overwritten(b, at, Zeros(i)), b[at + i];
            && o[at + i] == v
            && if v == 0xff then o[at + i := 0] == Overwritten(b, at, Zeros(i + 1))
                                 && Incremented(s) == Zeros(i + 1) + Incremented(s[i + 1..])
               else o[at + i := v + 1] == Overwritten(b, at, Incremented(s))
  {
    hide Incremented, Overwritten, Zeros;
    var s, v := b[at..at + size], b[at + i];
    IncrementedTail(s, i);
    if v == 0xff {
      OverwrittenMore(b, at, i, 0);
      Associate(Zeros(i), [0], Incremented(s[i + 1..]));
    } else {
      OverwrittenMore(b, at, i, v + 1);
      OverwrittenRest(b, at, Zeros(i) + [v + 1], size);
      assert b[at + i + 1..at + size] == s[i + 1..];
      Associate(Zeros(i), [v + 1], s[i + 1..]);
    }
  }

  lemma OverwrittenStart(b: seq<byte>, at: nat, s: seq<byte>)
    requires at <= |b|
    ensures Overwritten(b, at, Zeros(0)) == b && Incremented(s) == Zeros(0) + Incremented(s[0..])
  {
    assert s[0..] == s;
  }

  lemma OverwrittenMore(b: seq<byte>, at: nat, i: nat, v: byte)
    requires at + i < |b|
    ensures var o := Overwritten(b, at, Zeros(i));
            o[at + i] == b[at + i] && o[at + i := v] == Overwritten(b, at, Zeros(i) + [v])
    ensures Zeros(i) + [0] == Zeros(i + 1)
  {
  }

  /** Writing back what stands there changes nothing. */
  lemma OverwrittenRest(b: seq<byte>, at: nat, t: seq<byte>, n: nat)
    requires |t| <= n && at + n <= |b|
    ensures Overwritten(b, at, t) == Overwritten(b, at, t + b[at + |t|..at + n])
  {
  }

  lemma NextJob(j: Job, id: string, was: seq<byte>, at: nat, len1: nat, len2: nat, op: Op)
    requires len1 <= at && at + len2 <= |was| && j == Parts(id, was, at, len1, len2) && op.Notify?
    ensures j.id == id
    ensures Placed(j, op) && op.id != id ==>
              Next(j, op) == NewJob(op.id, op.coinb1, was[at - len1..at], len2, op.coinb2)
    ensures Placed(j, op) && op.id == id ==>
              var p := |op.coinb1| + len1;
              p + len2 <= |was| && Next(j, op) == Job(id, op.coinb1, was[at - len1..at], was[p..p + len2], op.coinb2)
  {
    assert Whole(j) == was;
  }

  /** The buffer with `t` written at `at`. */
  function Overwritten(s: seq<byte>, at: nat, t: seq<byte>): (r: seq<byte>)
    requires at + |t| <= |s|
    ensures |r| == |s|
  {
    s[..at] + t + s[at + |t|..]
  }

  function Glue(a: seq<byte>, b: seq<byte>, c: seq<byte>, d: seq<byte>): (s: seq<byte>)
    ensures |s| == |a| + |b| + |c| + |d|
  {
    a + b + c + d
  }

  /** A buffer as its four parts. */
  function Split(s: seq<byte>, a: nat, b: nat, c: nat): (p: (seq<byte>, seq<byte>, seq<byte>, seq<byte>))
    requires a + b + c <= |s|
    ensures s == Glue(p.0, p.1, p.2, p.3) && |p.0| == a && |p.1| == b && |p.2| == c
  {
    (s[..a], s[a..a + b], s[a + b..a + b + c], s[a + b + c..])
  }

  lemma KeptBytes(s: seq<byte>, was: seq<byte>, a: nat, b: nat, c: nat)
    requires a + b + c <= |s| && forall k | 0 <= k < |s| && k < |was| :: s[k] == was[k]
    ensures a + b + c <= |was| ==> Split(s, a, b, c).2 == was[a + b..a + b + c]
  {
  }

  lemma Replaced0(a: seq<byte>, a': seq<byte>, b: seq<byte>, c: seq<byte>, d: seq<byte>)
    requires |a'| == |a|
    ensures Overwritten(Glue(a, b, c, d), 0, a') == Glue(a', b, c, d)
  {
  }

  lemma Replaced1(a: seq<byte>, b: seq<byte>, b': seq<byte>, c: seq<byte>, d: seq<byte>)
    requires |b'| == |b|
    ensures Overwritten(Glue(a, b, c, d), |a|, b') == Glue(a, b', c, d)
  {
  }

  lemma Replaced2(a: seq<byte>, b: seq<byte>, c: seq<byte>, c': seq<byte>, d: seq<byte>)
    requires |c'| == |c|
    ensures Overwritten(Glue(a, b, c, d), |a| + |b|, c') == Glue(a, b, c', d)
  {
  }

  lemma Replaced3(a: seq<byte>, b: seq<byte>, c: seq<byte>, d: seq<byte>, d': seq<byte>)
    requires |d'| == |d|
    ensures Overwritten(Glue(a, b, c, d), |a| + |b| + |c|, d') == Glue(a, b, c, d')
  {
  }

  lemma PartsOf(id: string, a: seq<byte>, b: seq<byte>, c: seq<byte>, d: seq<byte>, s: seq<byte>)
    requires s == Glue(a, b, c, d)
    ensures Parts(id, s, |a| + |b|, |b|, |c|) == Job(id, a, b, c, d)
    ensures s[|a|..|a| + |b|] == b
  {
  }
}
