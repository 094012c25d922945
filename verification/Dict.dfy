/**
  The table of interned strings: threads that insert strings, each step of dict_insert being one
  step of the machine, under a lock for readers and writers.
 */
module Dict {
  import opened Basics
  import opened BitStrings
  import opened ByteKeys
  import opened EbNodes
  import opened EbMemory
  import opened EbRadix
  import opened EbRoots
  import opened Ebis

  /** Where a thread is in dict_insert. */
  datatype Pc =
    | Called
    | Looking
    | Looked(r: EbNode?)
    | Allocating
    | Waiting(de: EbNode)
    | Inserting(de: EbNode)
    | Put(de: EbNode, n: EbNode)
    | Losing(de: EbNode, n: EbNode)
    | Returned(r: EbNode?)

  datatype Thread = Thread(s: seq<byte>, pc: Pc)

  datatype Lock = Readers(ts: set<nat>) | Writer(t: nat)

  /** The entries of the tree in order, the lock, the threads, and what has been freed. An entry
      stands for one allocation; memory that is allocated again is another entry. */
  datatype State = State(values: seq<EbNode>, lock: Lock, threads: map<nat, Thread>, freed: set<EbNode>)

  /** What an insertion into a tree of unique keys returns and leaves. */
  ghost function InsertUnique(values: seq<EbNode>, de: EbNode): (EbNode, seq<EbNode>)
  {
    var found := FirstWith(values, de.bits);
    if found != null then (found, values) else (de, Splice(values, de))
  }

  /** The entry that a thread has to itself. */
  ghost function Private(pc: Pc): set<EbNode>
  {
    match pc
    case Waiting(de) => {de}
    case Inserting(de) => {de}
    case Put(de, n) => if n == de then {} else {de}
    case Losing(de, _) => {de}
    case _ => {}
  }

  ghost predicate Unused(s: State, de: EbNode)
  {
    de !in s.values && de !in s.freed && forall t :: t in s.threads ==> de !in Private(s.threads[t].pc)
  }

  ghost function At(s: State, t: nat, pc: Pc): State
    requires t in s.threads
  {
    s.(threads := s.threads[t := s.threads[t].(pc := pc)])
  }

  /** One step of the thread t, or no change where it cannot take one. The allocator's answer is de. */
  ghost function Step(s: State, t: nat, de: EbNode?): State
  {
    if t !in s.threads then s
    else
      var key := s.threads[t].s;
      match s.threads[t].pc
      case Called =>
        if s.lock.Readers? then At(s, t, Looking).(lock := Readers(s.lock.ts + {t})) else s
      case Looking => At(s, t, Looked(FirstWith(s.values, BytesBits(key))))
      case Looked(r) =>
        if s.lock.Writer? then s
        else At(s, t, if r != null then Returned(r) else Allocating).(lock := Readers(s.lock.ts - {t}))
      case Allocating =>
        if de == null then At(s, t, Returned(null))
        else if Unused(s, de) && StrKeyed(de) && de.bytes == key then At(s, t, Waiting(de)) else s
      case Waiting(de) =>
        if s.lock == Readers({}) then At(s, t, Inserting(de)).(lock := Writer(t)) else s
      case Inserting(de) =>
        var r := InsertUnique(s.values, de);
        At(s, t, Put(de, r.0)).(values := r.1)
      case Put(de, n) => At(s, t, if n == de then Returned(de) else Losing(de, n)).(lock := Readers({}))
      case Losing(de, n) => At(s, t, Returned(n)).(freed := s.freed + {de})
      case Returned(_) => s
  }

  // ---- The invariant ----

  ghost predicate UniqueKeys(values: seq<EbNode>)
  {
    forall e, f :: e in values && f in values && e.bytes == f.bytes ==> e == f
  }

  ghost predicate ThreadOk(values: seq<EbNode>, thread: Thread)
  {
    CString(thread.s) &&
    match thread.pc
    case Looked(r) => r != null ==> r in values && r.bytes == thread.s
    case Waiting(de) => StrKeyed(de) && de.bytes == thread.s
    case Inserting(de) => StrKeyed(de) && de.bytes == thread.s
    case Put(_, n) => n in values && n.bytes == thread.s
    case Losing(_, n) => n in values && n.bytes == thread.s
    case Returned(r) => r != null ==> r in values && r.bytes == thread.s
    case _ => true
  }

  ghost predicate Reads(pc: Pc) { pc.Looking? || pc.Looked? }

  ghost predicate Writes(pc: Pc) { pc.Inserting? || pc.Put? }

  /** The lock is held by just the threads between taking and releasing it. */
  ghost predicate LockOk(s: State)
  {
    match s.lock
    case Readers(ts) =>
      ts <= s.threads.Keys && forall t :: t in s.threads ==>
        && (Reads(s.threads[t].pc) <==> t in ts)
        && !Writes(s.threads[t].pc)
    case Writer(w) =>
      w in s.threads && forall t :: t in s.threads ==> (Writes(s.threads[t].pc) <==> t == w) && !Reads(s.threads[t].pc)
  }

  ghost predicate EntriesOk(s: State)
  {
    && UniqueKeys(s.values) && (forall e :: e in s.values ==> StrKeyed(e) && e !in s.freed)
    && (forall t, e :: t in s.threads && e in Private(s.threads[t].pc) ==> e !in s.values && e !in s.freed)
    && (forall t, u :: t in s.threads && u in s.threads && t != u ==>
          Private(s.threads[t].pc) !! Private(s.threads[u].pc))
  }

  ghost predicate Inv(s: State)
  {
    LockOk(s) && EntriesOk(s) && forall t :: t in s.threads ==> ThreadOk(s.values, s.threads[t])
  }

  lemma SameKey(a: EbNode, b: EbNode)
    requires StrKeyed(a) && StrKeyed(b)
    ensures a.bytes == b.bytes <==> a.bits == b.bits
  {
    if a.bits == b.bits { BytesInjective(a.bytes, b.bytes); }
  }

  ghost function Elems(s: seq<EbNode>): set<EbNode>
  {
    set e | e in s
  }

  lemma {:induction false} SpliceElems(s: seq<EbNode>, x: EbNode)
    ensures Elems(Splice(s, x)) == Elems(s) + {x}
  {
    if s != [] {
      SpliceElems(s[1..], x);
      assert Elems(s) == {s[0]} + Elems(s[1..]);
      if !Before(x.bits, s[0].bits) { assert Elems([s[0]] + Splice(s[1..], x)) == {s[0]} + Elems(Splice(s[1..], x)); }
    }
  }

  /** The table after an insertion: the entry returned is in it with the string, and nothing goes. */
  lemma InsertUniqueOk(values: seq<EbNode>, de: EbNode)
    requires UniqueKeys(values) && (forall e :: e in values ==> StrKeyed(e)) && StrKeyed(de)
    ensures var (n, values') := InsertUnique(values, de);
      && UniqueKeys(values') && n in values' && n.bytes == de.bytes
      && Elems(values') == Elems(values) + {n} && (n != de ==> values' == values)
  {
    FirstWithFound(values, de.bits);
    if FirstWith(values, de.bits) != null {
      SameKey(FirstWith(values, de.bits), de);
    } else {
      SpliceElems(values, de);
      forall e | e in values ensures e.bytes != de.bytes { SameKey(e, de); }
      var v := Splice(values, de);
      forall e, f | e in v && f in v && e.bytes == f.bytes ensures e == f {
        assert e in Elems(v) && f in Elems(v);
      }
    }
  }

  /** Entries only come. */
  ghost predicate Keeps(values: seq<EbNode>, values': seq<EbNode>)
  {
    forall e :: e in values ==> e in values'
  }

  lemma StepLock(s: State, t: nat, de: EbNode?)
    requires LockOk(s)
    ensures LockOk(Step(s, t, de))
  {
  }

  /** One thread moves on, with some of its own entries in the table or freed. */
  lemma MoveEntries(s: State, t: nat, s': State, own: set<EbNode>, own': set<EbNode>)
    requires EntriesOk(s) && t in s.threads && s'.threads.Keys == s.threads.Keys
    requires forall u :: u in s.threads && u != t ==> s'.threads[u] == s.threads[u]
    requires own == Private(s.threads[t].pc) && own' == Private(s'.threads[t].pc)
    requires forall e :: e in own' ==> e !in s'.values && (e in own || Unused(s, e))
    requires UniqueKeys(s'.values) && Elems(s'.values) <= Elems(s.values) + own
    requires forall e :: e in Elems(s'.values) ==> StrKeyed(e) && e !in s'.freed
    requires forall e :: e in s'.freed ==> e in s.freed || (e in own && e !in own')
    ensures EntriesOk(s')
  {
  }

  lemma InsertedEntries(values: seq<EbNode>, freed: set<EbNode>, de: EbNode)
    requires UniqueKeys(values) && (forall e :: e in values ==> StrKeyed(e) && e !in freed)
    requires StrKeyed(de) && de !in values && de !in freed
    ensures var (n, values') := InsertUnique(values, de);
      && Keeps(values, values') && UniqueKeys(values') && Elems(values') <= Elems(values) + {de}
      && (forall e :: e in Elems(values') ==> StrKeyed(e) && e !in freed) && (n != de ==> values' == values)
  {
    var (n, values') := InsertUnique(values, de);
    InsertUniqueOk(values, de);
    assert forall e :: e in values ==> e in Elems(values');
    FirstWithFound(values, de.bits);
  }

  lemma InsertKeepsEntries(s: State, t: nat)
    requires EntriesOk(s) && t in s.threads && s.threads[t].pc.Inserting? && StrKeyed(s.threads[t].pc.de)
    ensures EntriesOk(Step(s, t, null)) && Keeps(s.values, Step(s, t, null).values)
  {
    var de := s.threads[t].pc.de;
    var s' := Step(s, t, null);
    var (n, values') := InsertUnique(s.values, de);
    assert de in Private(s.threads[t].pc);
    InsertedEntries(s.values, s.freed, de);
    assert s'.values == values' && s'.freed == s.freed;
    MoveEntries(s, t, s', {de}, if n == de then {} else {de});
  }

  /** A step that neither allocates, inserts nor frees. */
  lemma OwnLess(s: State, t: nat, pc: Pc, lock: Lock)
    requires EntriesOk(s) && t in s.threads && Private(pc) <= Private(s.threads[t].pc)
    ensures EntriesOk(At(s, t, pc).(lock := lock))
  {
    var s' := At(s, t, pc).(lock := lock);
    assert Private(s'.threads[t].pc) == Private(pc);
    forall u | u in s.threads && u != t ensures s'.threads[u] == s.threads[u] {}
  }

  lemma AllocateKeepsEntries(s: State, t: nat, de: EbNode?)
    requires Inv(s) && t in s.threads && s.threads[t].pc.Allocating?
    ensures EntriesOk(Step(s, t, de))
  {
    if de == null {
      OwnLess(s, t, Returned(null), s.lock);
    } else if Unused(s, de) {
      var s' := At(s, t, Waiting(de));
      assert Private(s'.threads[t].pc) == {de};
      forall u | u in s.threads && u != t ensures s'.threads[u] == s.threads[u] && de !in Private(s.threads[u].pc) {}
    }
  }

  lemma FreeKeepsEntries(s: State, t: nat)
    requires Inv(s) && t in s.threads && s.threads[t].pc.Losing?
    ensures EntriesOk(Step(s, t, null))
  {
    var de, s' := s.threads[t].pc.de, Step(s, t, null);
    assert de in Private(s.threads[t].pc) && Private(s'.threads[t].pc) == {};
    forall u | u in s.threads && u != t ensures s'.threads[u] == s.threads[u] && de !in Private(s.threads[u].pc) {}
  }

  lemma StepEntries(s: State, t: nat, de: EbNode?)
    requires Inv(s)
    ensures EntriesOk(Step(s, t, de)) && Keeps(s.values, Step(s, t, de).values)
  {
    if t in s.threads {
      var s', pc := Step(s, t, de), s.threads[t].pc;
      if pc.Inserting? {
        InsertKeepsEntries(s, t);
      } else if pc.Allocating? {
        AllocateKeepsEntries(s, t, de);
      } else if pc.Losing? {
        FreeKeepsEntries(s, t);
      } else if s' != s {
        OwnLess(s, t, s'.threads[t].pc, s'.lock);
        assert s' == At(s, t, s'.threads[t].pc).(lock := s'.lock);
      }
    }
  }

  lemma LookThread(s: State, t: nat)
    requires Inv(s) && t in s.threads && s.threads[t].pc.Looking?
    ensures ThreadOk(s.values, s.threads[t].(pc := Looked(FirstWith(s.values, BytesBits(s.threads[t].s)))))
  {
    var key := s.threads[t].s;
    var r := FirstWith(s.values, BytesBits(key));
    FirstWithFound(s.values, BytesBits(key));
    if r != null { BytesInjective(r.bytes, key); }
  }

  lemma InsertThread(s: State, t: nat)
    requires Inv(s) && t in s.threads && s.threads[t].pc.Inserting?
    ensures var (n, values') := InsertUnique(s.values, s.threads[t].pc.de);
      ThreadOk(values', s.threads[t].(pc := Put(s.threads[t].pc.de, n)))
  {
    InsertUniqueOk(s.values, s.threads[t].pc.de);
  }

  lemma StepThread(s: State, t: nat, de: EbNode?)
    requires Inv(s) && t in s.threads
    ensures var s' := Step(s, t, de); t in s'.threads && ThreadOk(s'.values, s'.threads[t])
  {
    assert ThreadOk(s.values, s.threads[t]);
    if s.threads[t].pc.Inserting? { InsertThread(s, t); }
    if s.threads[t].pc.Looking? { LookThread(s, t); }
  }

  lemma StepOthers(s: State, t: nat, de: EbNode?, u: nat)
    requires u != t
    ensures var s' := Step(s, t, de); u in s'.threads <==> u in s.threads
    ensures var s' := Step(s, t, de); u in s.threads ==> s'.threads[u] == s.threads[u]
  {
  }

  lemma ThreadStays(values: seq<EbNode>, values': seq<EbNode>, thread: Thread)
    requires Keeps(values, values') && ThreadOk(values, thread)
    ensures ThreadOk(values', thread)
  {
  }

  lemma StepThreads(s: State, t: nat, de: EbNode?)
    requires Inv(s)
    ensures var s' := Step(s, t, de); forall u :: u in s'.threads ==> ThreadOk(s'.values, s'.threads[u])
  {
    if t in s.threads {
      StepThread(s, t, de);
      StepEntries(s, t, de);
    }
    var s' := Step(s, t, de);
    forall u | u in s'.threads && u != t ensures ThreadOk(s'.values, s'.threads[u]) {
      StepOthers(s, t, de, u);
      ThreadStays(s.values, s'.values, s.threads[u]);
    }
  }

  /** Every step of every thread keeps the invariant. */
  lemma StepKeeps(s: State, t: nat, de: EbNode?)
    requires Inv(s)
    ensures Inv(Step(s, t, de)) && Keeps(s.values, Step(s, t, de).values)
  {
    StepLock(s, t, de);
    StepEntries(s, t, de);
    StepThreads(s, t, de);
  }

  // ---- Runs ----

  /** Which thread moves, and what the allocator answers if asked. */
  datatype Choice = Choice(t: nat, de: EbNode?)

  ghost function Run(s: State, schedule: seq<Choice>): State
  {
    if schedule == [] then s
    else
      var last := schedule[|schedule| - 1];
      Step(Run(s, schedule[..|schedule| - 1]), last.t, last.de)
  }

  /** An empty table, all threads about to insert a string. */
  ghost predicate Initial(s: State)
  {
    && s.values == [] && s.lock == Readers({}) && s.freed == {}
    && forall t :: t in s.threads ==> s.threads[t].pc == Called && CString(s.threads[t].s)
  }

  /** The invariant holds under every interleaving, and entries in the table stay in it. */
  lemma {:induction false} RunKeeps(s: State, schedule: seq<Choice>)
    requires Inv(s)
    ensures Inv(Run(s, schedule)) && Keeps(s.values, Run(s, schedule).values)
  {
    if schedule != [] {
      var before, last := schedule[..|schedule| - 1], schedule[|schedule| - 1];
      RunKeeps(s, before);
      StepKeeps(Run(s, before), last.t, last.de);
    }
  }

  /** Under every interleaving: at most one entry per string, all calls with equal strings return the
      same entry, and what has been freed is neither in the table nor returned. */
  lemma Interned(s: State, schedule: seq<Choice>, t: nat, u: nat)
    requires Initial(s) && t in s.threads && u in s.threads
    ensures var s' := Run(s, schedule);
      && UniqueKeys(s'.values) && (forall e :: e in s'.values ==> e !in s'.freed)
      && t in s'.threads && u in s'.threads && s'.threads[t].s == s.threads[t].s && s'.threads[u].s == s.threads[u].s
      && (s'.threads[t].pc.Returned? && s'.threads[t].pc.r != null ==>
            var r := s'.threads[t].pc.r;
            && r in s'.values && r !in s'.freed && r.bytes == s.threads[t].s
            && (s'.threads[u].pc.Returned? && s'.threads[u].pc.r != null ==>
                  (s.threads[u].s == s.threads[t].s <==> s'.threads[u].pc.r == r)))
  {
    RunKeeps(s, schedule);
    RunThreads(s, schedule);
    var s' := Run(s, schedule);
    assert ThreadOk(s'.values, s'.threads[t]) && ThreadOk(s'.values, s'.threads[u]);
  }

  lemma {:induction false} RunThreads(s: State, schedule: seq<Choice>)
    ensures var s' := Run(s, schedule);
      s'.threads.Keys == s.threads.Keys && forall t :: t in s.threads ==> s'.threads[t].s == s.threads[t].s
  {
    if schedule != [] { RunThreads(s, schedule[..|schedule| - 1]); }
  }

  /** Two calls with the same string that have returned entries, at two times. */
  lemma SameEntry(s1: State, s2: State, t: nat, u: nat)
    requires Inv(s1) && Inv(s2) && Keeps(s1.values, s2.values) && t in s1.threads && u in s2.threads
    requires s1.threads[t].pc.Returned? && s1.threads[t].pc.r != null && s1.threads[t].s == s2.threads[u].s
    ensures s1.threads[t].pc.r in s2.values && s1.threads[t].pc.r !in s2.freed
    ensures s2.threads[u].pc.Returned? && s2.threads[u].pc.r != null ==> s2.threads[u].pc.r == s1.threads[t].pc.r
  {
    assert ThreadOk(s1.values, s1.threads[t]) && ThreadOk(s2.values, s2.threads[u]);
  }

  /** An entry once returned is what later calls with the string return, however long after. */
  lemma ReturnedStays(s: State, before: seq<Choice>, after: seq<Choice>, t: nat, u: nat)
    requires Initial(s) && t in s.threads && u in s.threads && s.threads[t].s == s.threads[u].s
    requires t in Run(s, before).threads && Run(s, before).threads[t].pc.Returned?
      && Run(s, before).threads[t].pc.r != null
    ensures var r, s2 := Run(s, before).threads[t].pc.r, Run(Run(s, before), after);
      && r in s2.values && r !in s2.freed
      && (u in s2.threads && s2.threads[u].pc.Returned? && s2.threads[u].pc.r != null ==> s2.threads[u].pc.r == r)
  {
    var s1 := Run(s, before);
    RunKeeps(s, before);
    RunKeeps(s1, after);
    RunThreads(s, before);
    RunThreads(s1, after);
    SameEntry(s1, Run(s1, after), t, u);
  }

  // ---- What a call returns, and why ----

  /** The state that the i-th step of a run starts from. */
  ghost function Upto(s: State, schedule: seq<Choice>, i: nat): State
  {
    if i < |schedule| then Run(s, schedule[..i]) else Run(s, schedule)
  }

  /** The i-th step is one of thread t. */
  ghost predicate Turn(s: State, schedule: seq<Choice>, t: nat, i: nat)
  {
    i < |schedule| && schedule[i].t == t && t in s.threads && t in Upto(s, schedule, i).threads
  }

  /** With its i-th step the run looks up the string of t. */
  ghost predicate Looks(s: State, schedule: seq<Choice>, t: nat, i: nat)
  {
    Turn(s, schedule, t, i) && Upto(s, schedule, i).threads[t].pc.Looking?
  }

  /** Some entry of the table has the string. */
  ghost predicate Has(values: seq<EbNode>, key: seq<byte>)
  {
    exists e :: e in values && e.bytes == key
  }

  /** With the i-th step the allocator has no memory for t. */
  ghost predicate Refused(s: State, schedule: seq<Choice>, t: nat, i: nat)
  {
    Turn(s, schedule, t, i) && schedule[i].de == null && Upto(s, schedule, i).threads[t].pc.Allocating?
  }

  /** With the i-th step t is given de. */
  ghost predicate Given(s: State, schedule: seq<Choice>, t: nat, i: nat, de: EbNode)
  {
    && Turn(s, schedule, t, i) && schedule[i].de == de && Upto(s, schedule, i).threads[t].pc.Allocating?
    && Unused(Upto(s, schedule, i), de) && StrKeyed(de) && de.bytes == s.threads[t].s
  }

  /** What a run has done its beginning has done already, but for the last step. */
  lemma UptoLast(s: State, schedule: seq<Choice>, i: nat)
    requires schedule != [] && i < |schedule|
    ensures var before := schedule[..|schedule| - 1]; Upto(s, before, i) == Upto(s, schedule, i)
  {
    var before := schedule[..|schedule| - 1];
    if i < |before| { assert before[..i] == schedule[..i]; }
  }

  /** A call that has returned nothing was refused memory. */
  lemma {:induction false} NullRefused(s: State, schedule: seq<Choice>, t: nat) returns (i: nat)
    requires t in s.threads && s.threads[t].pc == Called
    ensures var s' := Run(s, schedule);
      t in s'.threads && (s'.threads[t].pc == Returned(null) ==> Refused(s, schedule, t, i))
  {
    i := 0;
    if schedule != [] {
      var before := schedule[..|schedule| - 1];
      i := NullRefused(s, before, t);
      if Run(s, before).threads[t].pc != Returned(null) { i := |before|; }
      UptoLast(s, schedule, i);
    }
  }

  /** A call that was refused memory has returned nothing. */
  lemma {:induction false} RefusedNull(s: State, schedule: seq<Choice>, t: nat, i: nat)
    requires Refused(s, schedule, t, i)
    ensures var s' := Run(s, schedule); t in s'.threads && s'.threads[t].pc == Returned(null)
  {
    var before := schedule[..|schedule| - 1];
    UptoLast(s, schedule, i);
    if i < |before| { RefusedNull(s, before, t, i); }
  }

  /** An entry that t was given is still its own, or in the table as what its call returns, or has been freed. */
  ghost predicate Kept(s: State, t: nat, de: EbNode)
    requires t in s.threads
  {
    var pc := s.threads[t].pc;
    de in Private(pc) || de in s.freed || pc == Put(de, de) || pc == Returned(de)
  }

  lemma KeptOn(s: State, t: nat, de: EbNode, last: Choice)
    requires t in s.threads && Kept(s, t, de)
    ensures t in Step(s, last.t, last.de).threads && Kept(Step(s, last.t, last.de), t, de)
  {
    if last.t != t { StepOthers(s, last.t, last.de, t); }
  }

  lemma {:induction false} GivenGoes(s: State, schedule: seq<Choice>, t: nat, i: nat, de: EbNode)
    requires Given(s, schedule, t, i, de)
    ensures t in Run(s, schedule).threads && Kept(Run(s, schedule), t, de)
  {
    var before, last := schedule[..|schedule| - 1], schedule[|schedule| - 1];
    RunThreads(s, before);
    if i < |before| {
      UptoLast(s, schedule, i);
      GivenGoes(s, before, t, i, de);
      KeptOn(Run(s, before), t, de, last);
    } else {
      assert Step(Run(s, before), t, de).threads[t].pc == Waiting(de);
    }
  }

  lemma LookedUp(values: seq<EbNode>, key: seq<byte>)
    requires CString(key) && UniqueKeys(values) && forall e :: e in values ==> StrKeyed(e)
    ensures var r := FirstWith(values, BytesBits(key));
      (r != null <==> Has(values, key)) && (r != null ==> r in values && r.bytes == key)
  {
    var r := FirstWith(values, BytesBits(key));
    FirstWithFound(values, BytesBits(key));
    if r != null { BytesInjective(r.bytes, key); }
  }

  /** What follows a lookup: with the string in the table its entry is returned, else memory is asked for. */
  ghost predicate After(values: seq<EbNode>, key: seq<byte>, pc: Pc)
  {
    match pc
    case Called => false
    case Looking => false
    case Looked(r) => if Has(values, key) then r != null && r in values && r.bytes == key else r == null
    case Returned(r) => Has(values, key) ==> r != null && r in values && r.bytes == key
    case _ => !Has(values, key)
  }

  lemma AfterStep(s: State, t: nat, de: EbNode?, values: seq<EbNode>)
    requires t in s.threads && After(values, s.threads[t].s, s.threads[t].pc)
    ensures var s' := Step(s, t, de); After(values, s.threads[t].s, s'.threads[t].pc)
  {
  }

  lemma AfterLook(s: State, t: nat, de: EbNode?)
    requires Inv(s) && t in s.threads && s.threads[t].pc.Looking?
    ensures After(s.values, s.threads[t].s, Step(s, t, de).threads[t].pc)
  {
    LookedUp(s.values, s.threads[t].s);
  }

  /** What a call has done by now, its lookup being the i-th step if that is over. */
  ghost predicate Told(s: State, schedule: seq<Choice>, t: nat, i: nat)
  {
    var s' := Run(s, schedule);
    t in s.threads && t in s'.threads &&
    (s'.threads[t].pc.Called? || s'.threads[t].pc.Looking? ||
       (Looks(s, schedule, t, i) && After(Upto(s, schedule, i).values, s.threads[t].s, s'.threads[t].pc)))
  }

  lemma ToldNow(s: State, before: seq<Choice>, last: Choice, t: nat)
    requires t in s.threads && Inv(Run(s, before)) && t in Run(s, before).threads && last.t == t
    requires Run(s, before).threads[t].s == s.threads[t].s && Run(s, before).threads[t].pc.Looking?
    ensures Told(s, before + [last], t, |before|)
  {
    var schedule := before + [last];
    assert schedule[..|before|] == before;
    AfterLook(Run(s, before), t, last.de);
  }

  lemma ToldOn(s: State, before: seq<Choice>, last: Choice, t: nat, i: nat)
    requires Told(s, before, t, i) && Run(s, before).threads[t].s == s.threads[t].s
    requires Run(s, before).threads[t].pc.Looking? ==> last.t != t
    ensures Told(s, before + [last], t, i)
  {
    var schedule, s1 := before + [last], Run(s, before);
    assert schedule[..|before|] == before;
    if last.t != t { StepOthers(s1, last.t, last.de, t); }
    if Looks(s, before, t, i) && !s1.threads[t].pc.Called? && !s1.threads[t].pc.Looking? {
      UptoLast(s, schedule, i);
      if last.t == t { AfterStep(s1, t, last.de, Upto(s, before, i).values); }
    }
  }

  lemma {:induction false} LooksOnce(s: State, schedule: seq<Choice>, t: nat) returns (i: nat)
    requires Initial(s) && t in s.threads
    ensures Told(s, schedule, t, i)
  {
    i := 0;
    if schedule != [] {
      var before, last := schedule[..|schedule| - 1], schedule[|schedule| - 1];
      i := LooksOnce(s, before, t);
      RunThreads(s, before);
      RunKeeps(s, before);
      assert before + [last] == schedule;
      if last.t == t && Run(s, before).threads[t].pc.Looking? {
        i := |before|;
        ToldNow(s, before, last, t);
      } else {
        ToldOn(s, before, last, t, i);
      }
    }
  }

  /** A call that has returned has looked its string up. If it was in the table then, its entry is returned. Nothing is
      returned if and only if memory was refused; else what is returned is in the table and has the string. What the
      call was given and has not returned is freed. */
  lemma CallEnds(s: State, schedule: seq<Choice>, t: nat) returns (i: nat)
    requires Initial(s) && t in s.threads && t in Run(s, schedule).threads && Run(s, schedule).threads[t].pc.Returned?
    ensures var s', key := Run(s, schedule), s.threads[t].s; var r := s'.threads[t].pc.r;
      && Looks(s, schedule, t, i)
      && (Has(Upto(s, schedule, i).values, key) ==> r in Upto(s, schedule, i).values && r.bytes == key)
      && (r == null <==> exists j :: Refused(s, schedule, t, j))
      && (r != null ==> r in s'.values && r.bytes == key && r !in s'.freed)
      && (forall j, de :: Given(s, schedule, t, j, de) && de != r ==> de in s'.freed)
  {
    var s' := Run(s, schedule);
    i := LooksOnce(s, schedule, t);
    var j := NullRefused(s, schedule, t);
    forall j | Refused(s, schedule, t, j) ensures s'.threads[t].pc == Returned(null) { RefusedNull(s, schedule, t, j); }
    forall j, de | Given(s, schedule, t, j, de) && de != s'.threads[t].pc.r ensures de in s'.freed {
      GivenGoes(s, schedule, t, j, de);
    }
    Interned(s, schedule, t, t);
  }

  /** Memory is asked for only after the string was looked up and not found. */
  lemma AskedMissed(s: State, schedule: seq<Choice>, t: nat, j: nat) returns (i: nat)
    requires Initial(s) && Turn(s, schedule, t, j) && Upto(s, schedule, j).threads[t].pc.Allocating?
    ensures i < j && Looks(s, schedule, t, i) && !Has(Upto(s, schedule, i).values, s.threads[t].s)
  {
    i := LooksOnce(s, schedule[..j], t);
    assert schedule[..j][..i] == schedule[..i];
  }

  /** No thread looks up while another one inserts, and no two insert. */
  lemma Exclusion(s: State, t: nat, u: nat)
    requires Inv(s) && t in s.threads && u in s.threads && t != u && s.threads[t].pc.Inserting?
    ensures !s.threads[u].pc.Looking? && !s.threads[u].pc.Inserting?
  {
    assert Writes(s.threads[t].pc);
  }

  /** As long as a call has not returned, some thread can move, even if no memory is left. */
  lemma NoDeadlock(s: State, t: nat)
    requires Inv(s) && t in s.threads && !s.threads[t].pc.Returned?
    ensures exists u :: u in s.threads && Step(s, u, null) != s
  {
    var u :| u in s.threads
      && (if s.lock == Readers({}) then u == t else if s.lock.Readers? then u in s.lock.ts else u == s.lock.t);
    assert s.lock.Readers? && s.lock.ts != {} ==> Reads(s.threads[u].pc);
    assert s.lock.Writer? ==> Writes(s.threads[u].pc);
    assert Step(s, u, null).threads[u].pc != s.threads[u].pc;
  }

  /** Steps a call still has to take at most, not counting waits. */
  ghost function Left(pc: Pc): nat
  {
    match pc
    case Called => 8
    case Looking => 7
    case Looked(_) => 6
    case Allocating => 5
    case Waiting(_) => 4
    case Inserting(_) => 3
    case Put(_, _) => 2
    case Losing(_, _) => 1
    case Returned(_) => 0
  }

  /** Every step that a thread takes brings its call closer to its end. */
  lemma StepsEnd(s: State, t: nat, de: EbNode?)
    ensures var s' := Step(s, t, de);
      s' == s || (t in s.threads && t in s'.threads && Left(s'.threads[t].pc) < Left(s.threads[t].pc)
                  && forall u :: u in s.threads && u != t ==> u in s'.threads && s'.threads[u] == s.threads[u])
  {
  }

  // ---- The operations on the tree in memory ----

  /** The machine's insertion is what inserting into a tree of unique keys does. */
  lemma InsertionIs(before: seq<EbNode>, de: EbNode, n: EbNode, after: seq<EbNode>)
    ensures Inserted(true, before, de, n, after) <==> (n, after) == InsertUnique(before, de)
  {
  }

  /** new_dict_entry; memory may be short. */
  method NewEntry(s: seq<byte>, memory: bool) returns (de: EbNode?)
    requires CString(s)
    ensures de == null <==> !memory
    ensures de != null ==> fresh(de) && StrKeyed(de) && de.bytes == s
  {
    if !memory { return null; }
    de := new EbNode(0, s, 0, BytesBits(s));
  }

  /** dict_insert as a single thread runs it. */
  method Insert(values: EbTree, s: seq<byte>, memory: bool) returns (de: EbNode?)
    requires StringTree(values) && values.Unique() && CString(s)
    modifies values`shape
    modifies values.Foot()`left, values.Foot()`right, values.Foot()`node_p, values.Foot()`leaf_p, values.Foot()`bit
    ensures StringTree(values) && values.Unique()
    ensures var found := FirstWith(old(values.Contents()), BytesBits(s));
      if found != null || !memory then de == found && values.Contents() == old(values.Contents())
      else de != null && fresh(de) && de.bytes == s && values.Contents() == Splice(old(values.Contents()), de)
  {
    de := LookupString(values, s);
    assert Snap(values.Foot()) == old(Snap(values.Foot()));
    if de != null { return; }
    de := NewEntry(s, memory);
    assert Snap(values.Foot()) == old(Snap(values.Foot()));
    if de == null { return; }
    var n := InsertString(values, de);
    if n != de {
      de := n;
    }
  }
}