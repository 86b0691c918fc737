/** The multi-process packer: one feeder, N readers, one reordering writer (tools/im2rec.py). */
module PackPipeline {
  import opened Sequences
  import opened Wrappers

  datatype Item = Item(id: int, path: string)

  /** The image list, what encoding makes of an item (None when it fails), and the sizes of the pipeline. */
  datatype Job<!R> = Job(items: seq<Item>, encode: Item -> Option<R>, readers: nat, capIn: nat, capOut: nat) {
    ghost predicate Valid() {
      readers >= 1 && capIn >= 1 && capOut >= 1
    }
  }

  datatype InMessage = Work(i: nat, item: Item) | Stop
  datatype OutMessage<R> = Done(i: nat, s: Option<R>, item: Item) | End
  datatype Reader = Waiting | Encoding(i: nat, item: Item) | Stopped

  // ---------- The writer ----------

  /** Results by number, the next number to write, and the records written so far. */
  datatype Writer<R> = Writer(buf: map<nat, (Option<R>, Item)>, count: nat, written: seq<(int, R)>)

  function Emit<R>(written: seq<(int, R)>, s: Option<R>, item: Item): seq<(int, R)> {
    if s.Some? then written + [(item.id, s.value)] else written
  }

  /** The buffered result with the next number is written, or dropped if its encoding failed. */
  function Passed<R>(w: Writer<R>): (w': Writer<R>)
    requires w.count in w.buf
    ensures |w'.buf| < |w.buf|
  {
    var rest := w.buf - {w.count};
    assert w.buf.Keys == rest.Keys + {w.count};
    Writer(rest, w.count + 1, Emit(w.written, w.buf[w.count].0, w.buf[w.count].1))
  }

  /** Writes buffered results for as long as the next number is there. */
  function Drain<R>(w: Writer<R>): Writer<R>
    decreases |w.buf|
  {
    if w.count !in w.buf then w else Drain(Passed(w))
  }

  /** The buffer after a message has been taken. */
  function Stored<R>(buf: map<nat, (Option<R>, Item)>, m: OutMessage<R>): (buf': map<nat, (Option<R>, Item)>)
    ensures m.End? ==> buf' == buf
    ensures m.Done? ==> buf'.Keys == buf.Keys + {m.i} && buf'[m.i] == (m.s, m.item)
    ensures m.Done? ==> forall k :: k in buf && k != m.i ==> buf'[k] == buf[k]
  {
    match m case Done(i, s, item) => buf[i := (s, item)] case End => buf
  }

  /** One pass of the writer's loop. */
  function Receive<R>(w: Writer<R>, m: OutMessage<R>): Writer<R> {
    Drain(Taken(w, m))
  }

  function Taken<R>(w: Writer<R>, m: OutMessage<R>): (w': Writer<R>)
    ensures w'.count == w.count && w'.written == w.written
  {
    Writer(Stored(w.buf, m), w.count, w.written)
  }

  lemma DrainPasses<R>(w: Writer<R>)
    requires w.count in w.buf
    ensures Drain(w) == Drain(Passed(w)) && |Passed(w).buf| < |w.buf|
    ensures Passed(w).buf == w.buf - {w.count} && Passed(w).count == w.count + 1
    ensures Passed(w).written == Emit(w.written, w.buf[w.count].0, w.buf[w.count].1)
  {
  }

  // ---------- What draining does, result by result ----------

  /** ks lists, in increasing order, the numbers from..to-1 whose buffered result is a record, and `added` holds
      those records: the number in the image list and the encoding. */
  ghost predicate RecordsOf<R>(buf: map<nat, (Option<R>, Item)>, from: nat, to: nat, ks: seq<nat>,
                               added: seq<(int, R)>) {
    && Increasing(ks)
    && (forall k: nat :: k in ks <==> from <= k < to && k in buf && buf[k].0.Some?)
    && |added| == |ks|
    && (forall j :: 0 <= j < |ks| ==> added[j] == (buf[ks[j]].1.id, buf[ks[j]].0.value))
  }

  /** Numbers count..count'-1 have left the buffer, which does not hold count'. */
  ghost predicate Emptied<R>(w: Writer<R>, w': Writer<R>) {
    && w.count <= w'.count
    && (forall k :: w.count <= k < w'.count ==> k in w.buf)
    && w'.count !in w.buf
    && (forall k :: k in w'.buf <==> k in w.buf && !(w.count <= k < w'.count))
    && (forall k :: k in w'.buf ==> k in w.buf && w'.buf[k] == w.buf[k])
  }

  /** And their records have been written after the others. */
  ghost predicate Recorded<R>(w: Writer<R>, w': Writer<R>) {
    w.written <= w'.written && exists ks :: RecordsOf(w.buf, w.count, w'.count, ks, w'.written[|w.written|..])
  }

  lemma RecordsOfNone<R>(buf: map<nat, (Option<R>, Item)>, at: nat)
    ensures RecordsOf(buf, at, at, [], [])
  {
  }

  lemma RecordsOfMore<R>(buf: map<nat, (Option<R>, Item)>, from: nat, to: nat, ks: seq<nat>, added: seq<(int, R)>)
    requires from in buf && from < to && RecordsOf(buf - {from}, from + 1, to, ks, added)
    ensures buf[from].0.None? ==> RecordsOf(buf, from, to, ks, added)
    ensures buf[from].0.Some? ==>
              RecordsOf(buf, from, to, [from] + ks, [(buf[from].1.id, buf[from].0.value)] + added)
  {
    assert forall j :: 0 <= j < |ks| ==> ks[j] in ks;
    assert forall k: nat :: k in [from] + ks <==> k == from || k in ks;
  }

  lemma {:induction false} DrainEmpties<R>(w: Writer<R>)
    ensures Emptied(w, Drain(w))
    decreases |w.buf|
  {
    if w.count in w.buf {
      DrainPasses(w);
      DrainEmpties(Passed(w));
      EmptiedFrom(w, Passed(w), Drain(w));
    }
  }

  lemma EmptiedFrom<R>(w: Writer<R>, p: Writer<R>, w': Writer<R>)
    requires w.count in w.buf && p.buf == w.buf - {w.count} && p.count == w.count + 1 && Emptied(p, w')
    ensures Emptied(w, w')
  {
    assert forall k: nat :: k in p.buf <==> k in w.buf && k != w.count;
  }

  lemma ReceiveDoes<R>(w: Writer<R>, m: OutMessage<R>)
    ensures Emptied(Taken(w, m), Receive(w, m)) && Recorded(Taken(w, m), Receive(w, m))
  {
    DrainEmpties(Taken(w, m));
    DrainRecords(Taken(w, m));
  }

  lemma AddedAfter<R>(written: seq<(int, R)>, s: Option<R>, item: Item, written': seq<(int, R)>)
    requires Emit(written, s, item) <= written'
    ensures written <= written'
    ensures var added := written'[|Emit(written, s, item)|..];
            written'[|written|..] == if s.Some? then [(item.id, s.value)] + added else added
  {
  }

  lemma {:induction false} DrainRecords<R>(w: Writer<R>)
    ensures Recorded(w, Drain(w))
    decreases |w.buf|
  {
    if w.count !in w.buf {
      assert w.written[|w.written|..] == [];
      RecordsOfNone(w.buf, w.count);
    } else {
      DrainPasses(w);
      DrainRecords(Passed(w));
      DrainEmpties(Passed(w));
      RecordedFrom(w, Passed(w), Drain(w), w.buf[w.count].0, w.buf[w.count].1);
    }
  }

  lemma RecordedFrom<R>(w: Writer<R>, p: Writer<R>, w': Writer<R>, s: Option<R>, item: Item)
    requires w.count in w.buf && w.buf[w.count] == (s, item) && w.count < w'.count
    requires p.buf == w.buf - {w.count} && p.count == w.count + 1 && p.written == Emit(w.written, s, item)
    requires Recorded(p, w')
    ensures Recorded(w, w')
  {
    var added := w'.written[|p.written|..];
    var ks :| RecordsOf(p.buf, p.count, w'.count, ks, added);
    RecordsOfMore(w.buf, w.count, w'.count, ks, added);
    AddedAfter(w.written, s, item, w'.written);
  }

  /** The writer process as it keeps its state. */
  class WriteWorker<R> {
    var buf: map<nat, (Option<R>, Item)>
    var count: nat
    var record: seq<(int, R)>
    var more: bool

    ghost function State(): Writer<R>
      reads this
    {
      Writer(buf, count, record)
    }

    constructor ()
      ensures State() == Writer(map[], 0, []) && more
    {
      buf, count, record, more := map[], 0, [], true;
    }

    method Step(deq: OutMessage<R>)
      modifies this
      ensures State() == Receive(old(State()), deq)
      ensures Emptied(Taken(old(State()), deq), State()) && Recorded(Taken(old(State()), deq), State())
      ensures more == (old(more) && deq.Done?)
    {
      match deq {
        case Done(i, s, item) => buf := buf[i := (s, item)];
        case End => more := false;
      }
      ReceiveDoes(old(State()), deq);
      ghost var goal, w := Receive(old(State()), deq), State();
      while count in buf
        invariant w.buf == buf && w.count == count && w.written == record && Drain(w) == goal
        invariant more == (old(more) && deq.Done?)
        decreases |buf|
      {
        var s, item := buf[count].0, buf[count].1;
        DrainPasses(w);
        buf := buf - {count};
        if s.Some? {
          record := record + [(item.id, s.value)];
        }
        count := count + 1;
        w := Passed(w);
      }
    }
  }

  // ---------- The whole system ----------

  datatype State<R> = State(
    fed: nat,                  // items, then stop markers, put into the input queues so far
    qin: seq<seq<InMessage>>,
    readers: seq<Reader>,
    ended: bool,               // the end marker has been put into the output queue
    qout: seq<OutMessage<R>>,
    writer: Writer<R>,
    more: bool)

  datatype Step = Feed | Take(r: nat) | Put(r: nat) | Finish | Write

  function Init<R>(job: Job<R>): State<R> {
    State(0, seq(job.readers, _ => []), seq(job.readers, _ => Waiting), false, [], Writer(map[], 0, []), true)
  }

  /** The queue the feeder puts its next message into: item i goes to queue i mod N, then every queue gets a stop. */
  function Target<R>(job: Job<R>, fed: nat): (r: nat)
    requires job.readers >= 1 && fed < |job.items| + job.readers
    ensures r < job.readers
  {
    if fed < |job.items| then fed % job.readers else fed - |job.items|
  }

  function NextInput<R>(job: Job<R>, fed: nat): InMessage
    requires fed < |job.items| + job.readers
  {
    if fed < |job.items| then Work(fed, job.items[fed]) else Stop
  }

  /** A blocking queue operation is possible, and every join has been reached. */
  ghost predicate Enabled<R>(job: Job<R>, s: State<R>, step: Step) {
    && job.Valid() && |s.qin| == |s.readers| == job.readers
    && match step
       case Feed => s.fed < |job.items| + job.readers && |s.qin[Target(job, s.fed)]| < job.capIn
       case Take(r) => r < job.readers && s.readers[r].Waiting? && s.qin[r] != []
       case Put(r) => r < job.readers && s.readers[r].Encoding? && |s.qout| < job.capOut
       case Finish => s.fed == |job.items| + job.readers && !s.ended && |s.qout| < job.capOut
                      && forall r :: 0 <= r < job.readers ==> s.readers[r].Stopped?
       case Write => s.more && s.qout != []
  }

  ghost function Next<R>(job: Job<R>, s: State<R>, step: Step): State<R>
    requires Enabled(job, s, step)
  {
    match step
    case Feed =>
      var r := Target(job, s.fed);
      s.(fed := s.fed + 1, qin := s.qin[r := s.qin[r] + [NextInput(job, s.fed)]])
    case Take(r) =>
      var m := s.qin[r][0];
      s.(qin := s.qin[r := s.qin[r][1..]],
         readers := s.readers[r := if m.Work? then Encoding(m.i, m.item) else Stopped])
    case Put(r) =>
      var reader := s.readers[r];
      s.(qout := s.qout + [Done(reader.i, job.encode(reader.item), reader.item)], readers := s.readers[r := Waiting])
    case Finish =>
      s.(qout := s.qout + [End], ended := true)
    case Write =>
      s.(qout := s.qout[1..], writer := Receive(s.writer, s.qout[0]), more := s.qout[0].Done?)
  }

  // ---------- The sequential specification ----------

  /** The records of the first n items in order, failed encodings dropped. */
  ghost function Expected<R>(job: Job<R>, n: nat): seq<(int, R)>
    requires n <= |job.items|
  {
    if n == 0 then [] else Emit(Expected(job, n - 1), job.encode(job.items[n - 1]), job.items[n - 1])
  }

  lemma {:induction false} ExpectedPrefix<R>(job: Job<R>, m: nat, n: nat)
    requires m <= n <= |job.items|
    ensures Expected(job, m) <= Expected(job, n)
  {
    if m < n {
      ExpectedPrefix(job, m, n - 1);
    }
  }

  /** What the records of the first n items are: ks lists, in increasing order, exactly the items that could be
      encoded, and each has one record, made of its number in the image list and its encoding. */
  ghost predicate Packs<R>(job: Job<R>, n: nat, ks: seq<nat>, written: seq<(int, R)>)
    requires n <= |job.items|
  {
    && Increasing(ks)
    && (forall k: nat :: k in ks <==> k < n && job.encode(job.items[k]).Some?)
    && |written| == |ks|
    && (forall j :: 0 <= j < |ks| ==>
          ks[j] in ks && written[j] == (job.items[ks[j]].id, job.encode(job.items[ks[j]]).value))
  }

  ghost predicate Packed<R>(job: Job<R>, n: nat, written: seq<(int, R)>)
    requires n <= |job.items|
  {
    exists ks :: Packs(job, n, ks, written)
  }

  lemma PacksNext<R>(job: Job<R>, n: nat, ks: seq<nat>, written: seq<(int, R)>)
    requires n < |job.items| && Packs(job, n, ks, written)
    ensures var s := job.encode(job.items[n]);
            if s.Some? then Packs(job, n + 1, ks + [n], written + [(job.items[n].id, s.value)])
            else Packs(job, n + 1, ks, written)
  {
    assert forall j :: 0 <= j < |ks| ==> ks[j] in ks;
    assert forall k: nat :: k in ks + [n] <==> k in ks || k == n;
  }

  lemma {:induction false} ExpectedIsPacked<R>(job: Job<R>, n: nat)
    requires n <= |job.items|
    ensures Packed(job, n, Expected(job, n))
  {
    if n == 0 {
      assert Packs(job, 0, [], Expected(job, 0));
    } else {
      ExpectedIsPacked(job, n - 1);
      var ks :| Packs(job, n - 1, ks, Expected(job, n - 1));
      PacksNext(job, n - 1, ks, Expected(job, n - 1));
    }
  }

  // ---------- Counting where every number is ----------

  /** Sum of f over the elements. */
  ghost function Sum<T>(xs: seq<T>, f: T -> nat): nat {
    if xs == [] then 0 else f(xs[0]) + Sum(xs[1..], f)
  }

  lemma {:induction false} SumAppend<T>(xs: seq<T>, x: T, f: T -> nat)
    ensures Sum(xs + [x], f) == Sum(xs, f) + f(x)
  {
    if xs == [] {
      assert xs + [x] == [x] && [x][1..] == [];
    } else {
      SumAppend(xs[1..], x, f);
      assert (xs + [x])[1..] == xs[1..] + [x];
    }
  }

  lemma {:induction false} SumUpdate<T>(xs: seq<T>, k: nat, x: T, f: T -> nat)
    requires k < |xs|
    ensures Sum(xs[k := x], f) == Sum(xs, f) - f(xs[k]) + f(x)
  {
    if k == 0 {
      assert xs[k := x][1..] == xs[1..];
    } else {
      SumUpdate(xs[1..], k - 1, x, f);
      assert xs[k := x][1..] == xs[1..][k - 1 := x];
    }
  }

  lemma {:induction false} SumZero<T>(xs: seq<T>, f: T -> nat)
    requires forall k :: 0 <= k < |xs| ==> f(xs[k]) == 0
    ensures Sum(xs, f) == 0
  {
    if xs != [] {
      SumZero(xs[1..], f);
    }
  }

  ghost function InAt(i: nat): InMessage -> nat { (m: InMessage) => if m.Work? && m.i == i then 1 else 0 }
  ghost function QueueAt(i: nat): seq<InMessage> -> nat { (q: seq<InMessage>) => Sum(q, InAt(i)) }
  ghost function HeldAt(i: nat): Reader -> nat { (r: Reader) => if r.Encoding? && r.i == i then 1 else 0 }
  ghost function OutAt<R>(i: nat): OutMessage<R> -> nat { (m: OutMessage<R>) => if m.Done? && m.i == i then 1 else 0 }
  ghost function WriterAt<R>(w: Writer<R>, i: nat): nat {
    (if i in w.buf then 1 else 0) + (if i < w.count then 1 else 0)
  }

  /** The number of places number i is at: queued, being encoded, encoded, buffered or passed. */
  ghost function Places<R>(s: State<R>, i: nat): nat {
    Sum(s.qin, QueueAt(i)) + Sum(s.readers, HeldAt(i)) + Sum(s.qout, OutAt(i)) + WriterAt(s.writer, i)
  }

  /** Conservation: the numbers in the system are exactly those fed, each at one place. */
  ghost predicate Conserved<R>(job: Job<R>, s: State<R>) {
    forall i: nat :: Places(s, i) == if i < s.fed && i < |job.items| then 1 else 0
  }

  // ---------- The invariant ----------

  /** Messages carry the item of their number, and results its encoding. */
  ghost predicate RightWork<R>(job: Job<R>, m: InMessage) {
    m.Work? ==> m.i < |job.items| && m.item == job.items[m.i]
  }

  ghost predicate RightReader<R>(job: Job<R>, r: Reader) {
    r.Encoding? ==> r.i < |job.items| && r.item == job.items[r.i]
  }

  ghost predicate RightResult<R>(job: Job<R>, i: nat, s: Option<R>, item: Item) {
    i < |job.items| && item == job.items[i] && s == job.encode(item)
  }

  ghost predicate Payloads<R>(job: Job<R>, s: State<R>) {
    && (forall r, k :: 0 <= r < |s.qin| && 0 <= k < |s.qin[r]| ==> RightWork(job, s.qin[r][k]))
    && (forall r :: 0 <= r < |s.readers| ==> RightReader(job, s.readers[r]))
    && (forall k :: 0 <= k < |s.qout| && s.qout[k].Done? ==>
          RightResult(job, s.qout[k].i, s.qout[k].s, s.qout[k].item))
  }

  /** What the writer has done is the sequential packing of the items it has passed. */
  ghost predicate WriterRight<R>(job: Job<R>, w: Writer<R>) {
    && w.count <= |job.items|
    && (forall i :: i in w.buf ==> RightResult(job, i, w.buf[i].0, w.buf[i].1))
    && w.written == Expected(job, w.count)
  }

  /** The stop marker of reader r, once fed, is the last thing in its queue until it is taken. */
  ghost predicate StopRight(q: seq<InMessage>, r: Reader, sent: bool) {
    && (forall k :: 0 <= k < |q| - 1 ==> q[k].Work?)
    && (sent <==> r.Stopped? || (q != [] && q[|q| - 1].Stop?))
    && (r.Stopped? ==> q == [])
  }

  ghost predicate StopsRight<R>(job: Job<R>, s: State<R>)
    requires |s.qin| == |s.readers| == job.readers
  {
    forall r :: 0 <= r < job.readers ==> StopRight(s.qin[r], s.readers[r], s.fed > |job.items| + r)
  }

  /** The end marker is put after all readers have stopped and is the last thing in the output queue. */
  ghost predicate EndRight<R>(job: Job<R>, s: State<R>)
    requires |s.readers| == job.readers
  {
    && (s.ended ==> s.fed == |job.items| + job.readers && forall r :: 0 <= r < job.readers ==> s.readers[r].Stopped?)
    && (forall k :: 0 <= k < |s.qout| - 1 ==> s.qout[k].Done?)
    && (s.ended <==> !s.more || (s.qout != [] && s.qout[|s.qout| - 1].End?))
    && (!s.more ==> s.qout == [])
  }

  ghost predicate Shaped<R>(job: Job<R>, s: State<R>) {
    job.Valid() && |s.qin| == |s.readers| == job.readers && s.fed <= |job.items| + job.readers
  }

  ghost predicate Inv<R>(job: Job<R>, s: State<R>) {
    && Shaped(job, s)
    && Conserved(job, s)
    && Payloads(job, s)
    && WriterRight(job, s.writer) && s.writer.count !in s.writer.buf
    && StopsRight(job, s)
    && EndRight(job, s)
    && InBounds(job, s)
  }

  /** Item i only ever passes through reader i mod N, and no queue holds more than its capacity. */
  ghost predicate InBounds<R>(job: Job<R>, s: State<R>)
    requires |s.qin| == |s.readers| == job.readers
  {
    && (forall r, k :: 0 <= r < job.readers && 0 <= k < |s.qin[r]| ==> OwnWork(job, s.qin[r][k], r))
    && (forall r :: 0 <= r < job.readers ==> OwnReader(job, s.readers[r], r) && |s.qin[r]| <= job.capIn)
    && |s.qout| <= job.capOut
  }

  ghost predicate OwnWork<R>(job: Job<R>, m: InMessage, r: nat) {
    m.Work? ==> job.readers > 0 && m.i % job.readers == r
  }

  ghost predicate OwnReader<R>(job: Job<R>, reader: Reader, r: nat) {
    reader.Encoding? ==> job.readers > 0 && reader.i % job.readers == r
  }

  lemma StepKeepsBounds<R>(job: Job<R>, s: State<R>, step: Step)
    requires Shaped(job, s) && InBounds(job, s) && Enabled(job, s, step)
    ensures Shaped(job, Next(job, s, step)) && InBounds(job, Next(job, s, step))
  {
  }

  lemma InitInv<R>(job: Job<R>)
    requires job.Valid()
    ensures Inv(job, Init(job))
  {
    var s := Init(job);
    forall i: nat ensures Places(s, i) == 0 {
      SumZero(s.qin, QueueAt(i));
      SumZero(s.readers, HeldAt(i));
    }
  }

  // ---------- Conservation, step by step ----------

  lemma FeedConserves<R>(job: Job<R>, s: State<R>)
    requires Conserved(job, s) && Enabled(job, s, Feed)
    ensures Conserved(job, Next(job, s, Feed))
  {
    var r, m := Target(job, s.fed), NextInput(job, s.fed);
    forall i: nat ensures Places(Next(job, s, Feed), i) == Places(s, i) + InAt(i)(m) {
      SumAppend(s.qin[r], m, InAt(i));
      SumUpdate(s.qin, r, s.qin[r] + [m], QueueAt(i));
    }
  }

  lemma TakeConserves<R>(job: Job<R>, s: State<R>, r: nat)
    requires Conserved(job, s) && Enabled(job, s, Take(r))
    ensures Conserved(job, Next(job, s, Take(r)))
  {
    var q, m := s.qin[r], s.qin[r][0];
    var reader := if m.Work? then Encoding(m.i, m.item) else Stopped;
    forall i: nat ensures Places(Next(job, s, Take(r)), i) == Places(s, i) {
      SumUpdate(s.qin, r, q[1..], QueueAt(i));
      SumUpdate(s.readers, r, reader, HeldAt(i));
      assert Sum(q, InAt(i)) == InAt(i)(m) + Sum(q[1..], InAt(i));
    }
  }

  lemma PutConserves<R>(job: Job<R>, s: State<R>, r: nat)
    requires Conserved(job, s) && Enabled(job, s, Put(r))
    ensures Conserved(job, Next(job, s, Put(r)))
  {
    var reader := s.readers[r];
    var m := Done(reader.i, job.encode(reader.item), reader.item);
    forall i: nat ensures Places(Next(job, s, Put(r)), i) == Places(s, i) {
      SumUpdate(s.readers, r, Waiting, HeldAt(i));
      SumAppend(s.qout, m, OutAt(i));
    }
  }

  lemma FinishConserves<R>(job: Job<R>, s: State<R>)
    requires Conserved(job, s) && Enabled(job, s, Finish)
    ensures Conserved(job, Next(job, s, Finish))
  {
    forall i: nat ensures Places(Next(job, s, Finish), i) == Places(s, i) {
      SumAppend(s.qout, End, OutAt(i));
    }
  }

  ghost predicate AheadOnly<R>(w: Writer<R>) {
    forall i :: i in w.buf ==> i >= w.count
  }

  lemma PassOneCounts<R>(w: Writer<R>)
    requires AheadOnly(w) && w.count in w.buf
    ensures AheadOnly(Passed(w))
    ensures forall i: nat :: WriterAt(Passed(w), i) == WriterAt(w, i)
  {
    var rest := w.buf - {w.count};
    assert w.buf.Keys == rest.Keys + {w.count};
  }

  lemma PassOneRight<R>(job: Job<R>, w: Writer<R>)
    requires WriterRight(job, w) && w.count in w.buf
    ensures WriterRight(job, Passed(w))
  {
    var entry := w.buf[w.count];
    assert RightResult(job, w.count, entry.0, entry.1);
    assert Passed(w).written == Emit(Expected(job, w.count), job.encode(job.items[w.count]), job.items[w.count]);
  }

  /** Draining passes on numbers from the buffer, keeps the packing right and stops at a number not buffered. */
  lemma {:induction false} DrainRight<R>(job: Job<R>, w: Writer<R>)
    requires WriterRight(job, w) && AheadOnly(w)
    ensures WriterRight(job, Drain(w)) && Drain(w).count !in Drain(w).buf
    ensures forall i: nat :: WriterAt(Drain(w), i) == WriterAt(w, i)
    decreases |w.buf|
  {
    if w.count in w.buf {
      PassOneCounts(w);
      PassOneRight(job, w);
      assert Drain(w) == Drain(Passed(w));
      DrainRight(job, Passed(w));
    }
  }

  /** The number of the first queued result is neither buffered nor passed, and no buffered number is passed. */
  lemma OnlyOnce<R>(job: Job<R>, s: State<R>)
    requires Conserved(job, s)
    ensures s.qout != [] && s.qout[0].Done? ==> s.qout[0].i !in s.writer.buf && s.qout[0].i >= s.writer.count
    ensures forall i :: i in s.writer.buf ==> i >= s.writer.count
  {
    forall i | i in s.writer.buf ensures i >= s.writer.count {
      assert Places(s, i) <= 1;
    }
    if s.qout != [] && s.qout[0].Done? {
      var i := s.qout[0].i;
      assert Places(s, i) <= 1;
      assert Sum(s.qout, OutAt(i)) == OutAt(i)(s.qout[0]) + Sum(s.qout[1..], OutAt(i));
    }
  }

  lemma WriteConserves<R>(job: Job<R>, s: State<R>)
    requires Conserved(job, s) && Payloads(job, s) && WriterRight(job, s.writer) && Enabled(job, s, Write)
    ensures Conserved(job, Next(job, s, Write))
    ensures WriterRight(job, Next(job, s, Write).writer)
    ensures Next(job, s, Write).writer.count !in Next(job, s, Write).writer.buf
  {
    var w, m := s.writer, s.qout[0];
    OnlyOnce(job, s);
    TakenRight(job, w, m);
    DrainRight(job, Taken(w, m));
    forall i: nat ensures Places(Next(job, s, Write), i) == Places(s, i) {
      assert Sum(s.qout, OutAt(i)) == OutAt(i)(m) + Sum(s.qout[1..], OutAt(i));
    }
  }

  /** Taking a result puts its number into the writer, once. */
  lemma TakenRight<R>(job: Job<R>, w: Writer<R>, m: OutMessage<R>)
    requires WriterRight(job, w) && AheadOnly(w) && (m.Done? ==> RightResult(job, m.i, m.s, m.item))
    requires m.Done? ==> m.i !in w.buf && m.i >= w.count
    ensures WriterRight(job, Taken(w, m)) && AheadOnly(Taken(w, m))
    ensures forall i: nat :: WriterAt(Taken(w, m), i) == WriterAt(w, i) + OutAt(i)(m)
  {
  }

  // ---------- Every step keeps the invariant ----------

  lemma StepKeepsOrder<R>(job: Job<R>, s: State<R>, step: Step)
    requires Shaped(job, s) && StopsRight(job, s) && Enabled(job, s, step)
    ensures Shaped(job, Next(job, s, step)) && StopsRight(job, Next(job, s, step))
  {
  }

  lemma StepKeepsEnd<R>(job: Job<R>, s: State<R>, step: Step)
    requires Shaped(job, s) && StopsRight(job, s) && EndRight(job, s) && Enabled(job, s, step)
    ensures Shaped(job, Next(job, s, step)) && EndRight(job, Next(job, s, step))
  {
  }

  lemma StepKeepsPayloads<R>(job: Job<R>, s: State<R>, step: Step)
    requires Payloads(job, s) && Enabled(job, s, step)
    ensures Payloads(job, Next(job, s, step))
  {
  }

  /** Every step of every process keeps the invariant. */
  lemma StepKeepsInv<R>(job: Job<R>, s: State<R>, step: Step)
    requires Inv(job, s) && Enabled(job, s, step)
    ensures Inv(job, Next(job, s, step))
  {
    StepKeepsOrder(job, s, step);
    StepKeepsEnd(job, s, step);
    StepKeepsPayloads(job, s, step);
    StepKeepsBounds(job, s, step);
    match step
    case Feed => FeedConserves(job, s);
    case Take(r) => TakeConserves(job, s, r);
    case Put(r) => PutConserves(job, s, r);
    case Finish => FinishConserves(job, s);
    case Write => WriteConserves(job, s);
  }

  // ---------- What every run guarantees ----------

  /** At all times the records written are a prefix of the sequential packing. */
  lemma WrittenIsPrefix<R>(job: Job<R>, s: State<R>)
    requires Inv(job, s)
    ensures s.writer.written <= Expected(job, |job.items|)
  {
    ExpectedPrefix(job, s.writer.count, |job.items|);
  }

  lemma NothingLeft<R>(job: Job<R>, s: State<R>, i: nat)
    requires Inv(job, s) && !s.more
    ensures WriterAt(s.writer, i) == if i < |job.items| then 1 else 0
  {
    assert s.ended && s.qout == [];
    assert forall r :: 0 <= r < job.readers ==> s.readers[r].Stopped? && StopRight(s.qin[r], s.readers[r], true);
    SumZero(s.qin, QueueAt(i));
    SumZero(s.readers, HeldAt(i));
    assert Places(s, i) == WriterAt(s.writer, i);
  }

  /** When the writer stops, everything has been written, in order, and the buffer is empty. */
  lemma FinishedIsComplete<R>(job: Job<R>, s: State<R>)
    requires Inv(job, s) && !s.more
    ensures s.writer.written == Expected(job, |job.items|)
    ensures s.writer.buf == map[] && s.writer.count == |job.items|
  {
    NothingLeft(job, s, s.writer.count);
    forall i | i in s.writer.buf ensures false {
      NothingLeft(job, s, i);
    }
    assert s.writer.buf.Keys == {};
  }

  /** No reachable state is stuck before the writer has stopped. */
  lemma NotStuck<R>(job: Job<R>, s: State<R>)
    requires Inv(job, s) && s.more
    ensures exists step :: Enabled(job, s, step)
  {
    if s.qout != [] {
      assert Enabled(job, s, Write);
    } else if r: nat :| r < job.readers && s.readers[r].Encoding? {
      assert Enabled(job, s, Put(r));
    } else if r: nat :| r < job.readers && s.readers[r].Waiting? && s.qin[r] != [] {
      assert Enabled(job, s, Take(r));
    } else {
      assert forall r: nat :: r < job.readers ==>
          StopRight(s.qin[r], s.readers[r], s.fed > |job.items| + r) && s.qin[r] == [];
      if s.fed < |job.items| + job.readers {
        assert Enabled(job, s, Feed);
      } else {
        assert forall r: nat :: r < job.readers ==> s.readers[r].Stopped?;
        assert Enabled(job, s, Finish);
      }
    }
  }

  ghost function Length(): seq<InMessage> -> nat { (q: seq<InMessage>) => |q| }
  ghost function Busy(): Reader -> nat { (r: Reader) => if r.Encoding? then 1 else 0 }

  /** Bounds the number of steps still possible. */
  ghost function Measure<R>(job: Job<R>, s: State<R>): int {
    4 * (|job.items| + job.readers - s.fed) + 3 * Sum(s.qin, Length()) + 2 * Sum(s.readers, Busy())
    + |s.qout| + (if s.ended then 0 else 2)
  }

  lemma StepDecreasesMeasure<R>(job: Job<R>, s: State<R>, step: Step)
    requires Inv(job, s) && Enabled(job, s, step)
    ensures 0 <= Measure(job, Next(job, s, step)) < Measure(job, s)
  {
    StepKeepsOrder(job, s, step);
    match step
    case Feed =>
      var r := Target(job, s.fed);
      SumUpdate(s.qin, r, s.qin[r] + [NextInput(job, s.fed)], Length());
    case Take(r) =>
      SumUpdate(s.qin, r, s.qin[r][1..], Length());
      SumUpdate(s.readers, r, Next(job, s, step).readers[r], Busy());
    case Put(r) =>
      SumUpdate(s.readers, r, Waiting, Busy());
    case Finish =>
    case Write =>
  }

  /** The state after a list of steps, each of which was possible when taken. */
  ghost predicate Run<R(!new)>(job: Job<R>, steps: seq<Step>, s: State<R>) {
    if steps == [] then s == Init(job)
    else
      var earlier, last := steps[..|steps| - 1], steps[|steps| - 1];
      exists before :: Run(job, earlier, before) && Enabled(job, before, last) && s == Next(job, before, last)
  }

  lemma InitMeasure<R>(job: Job<R>)
    ensures Measure(job, Init(job)) == 4 * (|job.items| + job.readers) + 2
  {
    SumZero(Init(job).qin, Length());
    SumZero(Init(job).readers, Busy());
  }

  lemma {:induction false} RunKeepsInv<R(!new)>(job: Job<R>, steps: seq<Step>, s: State<R>)
    requires job.Valid() && Run(job, steps, s)
    ensures Inv(job, s) && 0 <= Measure(job, s) <= 4 * (|job.items| + job.readers) + 2 - |steps|
  {
    if steps == [] {
      InitInv(job);
      InitMeasure(job);
    } else {
      var earlier, last := steps[..|steps| - 1], steps[|steps| - 1];
      var before :| Run(job, earlier, before) && Enabled(job, before, last) && s == Next(job, before, last);
      RunKeepsInv(job, earlier, before);
      StepKeepsInv(job, before, last);
      StepDecreasesMeasure(job, before, last);
    }
  }

  /** Every interleaving: the output is always a prefix of the sequential packing, runs are bounded in length,
      and a run that cannot go on has packed everything, in order. */
  lemma EveryRun<R(!new)>(job: Job<R>, steps: seq<Step>, s: State<R>)
    requires job.Valid() && Run(job, steps, s)
    ensures s.writer.count <= |job.items| && Packed(job, s.writer.count, s.writer.written)
    ensures s.writer.written <= Expected(job, |job.items|)
    ensures |s.qin| == |s.readers| == job.readers && InBounds(job, s)
    ensures |steps| <= 4 * (|job.items| + job.readers) + 2
    ensures (forall step :: !Enabled(job, s, step)) ==>
              && !s.more && s.writer.buf == map[] && s.writer.written == Expected(job, |job.items|)
              && Packed(job, |job.items|, s.writer.written)
  {
    RunKeepsInv(job, steps, s);
    WrittenIsPrefix(job, s);
    ExpectedIsPacked(job, s.writer.count);
    if s.more {
      NotStuck(job, s);
    } else {
      FinishedIsComplete(job, s);
    }
  }
}
