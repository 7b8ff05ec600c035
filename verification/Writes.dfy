/** What a run of datagrams does to the MIB while the rest of the device goes on changing it. */
module Writes {
  import opened Types
  import opened Ber
  import opened Codec
  import opened PduCodec
  import opened Mib
  import opened Examples
  import opened ReadPdu
  import opened SetPdu
  import opened BulkPdu
  import opened Community
  import opened Agent

  /** A SetRequest under the read-write community. */
  predicate IsWrite(cfg: Config, msg: Bytes) {
    var q := RequestIn(cfg, msg);
    q.Some? && q.value.pdu.tag == PDU_SET && q.value.access == ReadWrite
  }

  // ---------------------------------------------------------------- runs

  /** A datagram, the room for its answer, and the state the MIB is in when it arrives. */
  datatype Arrival<S> = Arrival(st: S, msg: Bytes, cap: nat)

  /** The state after the handlers are done with the datagram. Before the next one arrives anything may happen to it:
      clocks and sensors move on, rows come and go, and getters enter in their books that they have been read. */
  ghost function After<S(!new)>(cfg: Config, mib: Registered<S>, a: Arrival<S>): S
    requires WellFormed(mib)
  {
    Respond(cfg, mib, a.st, a.msg, a.cap).st
  }

  /** A write that takes effect: an authorised SetRequest, not empty, all varbinds of which are valid as it arrives. */
  ghost predicate TakesEffect<S(!new)>(cfg: Config, mib: Registered<S>, a: Arrival<S>)
    requires WellFormed(mib)
  {
    IsWrite(cfg, a.msg) && CString(ParseEnvelope(a.msg, 0).value.community) == cfg.rw &&
    var vbs := RequestIn(cfg, a.msg).value.pdu.varbinds;
    vbs != [] && forall i | 0 <= i < |vbs| :: Check(mib, a.st, vbs[i]) == MibOk
  }

  /** The handlers change the MIB only by setters, and run setters only for such a request. */
  lemma HandlersOnlySet<S(!new)>(cfg: Config, mib: Registered<S>, a: Arrival<S>)
    requires WellFormed(mib)
    ensures After(cfg, mib, a) != a.st ==> TakesEffect(cfg, mib, a)
  {
    hide ParseEnvelope, ParseRequestPdu, WellFormed, ReadReply, SetReply, BulkReply, EncMessage, Check;
    if After(cfg, mib, a) != a.st {
      var f := RequestIn(cfg, a.msg).value.pdu;
      ChecksFirst(mib, a.st, f);
      EmptySetWritesNothing(mib, a.st, f);
    }
  }

  lemma EmptySetWritesNothing<S(!new)>(mib: Registered<S>, st: S, f: Fields)
    requires WellFormed(mib)
    ensures f.varbinds == [] ==> SetReply(mib, st, f).0 == st
  {
  }

  /** The state after a datagram has been served and the getters it called have made their entries. What those are may
      depend on the state and on the datagram. */
  ghost function Settled<S(!new)>(cfg: Config, mib: Registered<S>, book: (S, Bytes) -> S, a: Arrival<S>): S
    requires WellFormed(mib)
  {
    book(After(cfg, mib, a), a.msg)
  }

  /** Getters make no entries in the part of the state that own picks out. */
  ghost predicate BooksLeave<S(!new), T(!new)>(book: (S, Bytes) -> S, own: S -> T) {
    forall st, msg :: own(book(st, msg)) == own(st)
  }

  /** Serving a datagram changes what getters make no entries in only for such a request. */
  lemma OnlyValidSetWrites<S(!new), T(!new)>(cfg: Config, mib: Registered<S>, book: (S, Bytes) -> S, own: S -> T,
                                             a: Arrival<S>)
    requires WellFormed(mib) && BooksLeave(book, own)
    ensures own(Settled(cfg, mib, book, a)) != own(a.st) ==> TakesEffect(cfg, mib, a)
  {
    hide TakesEffect, After, WellFormed;
    HandlersOnlySet(cfg, mib, a);
  }

  /** Between datagrams nothing touches the part of the state that own picks out: neither the environment nor the
      bookkeeping of a getter. Labels, names and relays are such parts; clocks, sensors and read counters are not. */
  ghost predicate LeftToSetters<S(!new), T(!new)>(cfg: Config, mib: Registered<S>, own: S -> T, run: seq<Arrival<S>>)
    requires WellFormed(mib)
  {
    forall k | 0 < k < |run| :: own(run[k].st) == own(After(cfg, mib, run[k - 1]))
  }

  /** Over any run of datagrams, with anything happening in between, what is left to setters changes only across writes
      that take effect. */
  lemma {:induction false} RunIntegrity<S(!new), T(!new)>(cfg: Config, mib: Registered<S>, own: S -> T,
                                                        run: seq<Arrival<S>>, i: nat, j: nat)
    requires WellFormed(mib) && LeftToSetters(cfg, mib, own, run) && i <= j < |run|
    ensures own(run[i].st) != own(run[j].st) ==>
            exists k | i <= k < j :: TakesEffect(cfg, mib, run[k]) && own(run[k].st) != own(run[k + 1].st)
    decreases j
  {
    hide TakesEffect, After, WellFormed;
    if own(run[i].st) != own(run[j].st) {
      RunIntegrity(cfg, mib, own, run, i, j - 1);
      if own(run[i].st) == own(run[j - 1].st) {
        var k := j - 1;
        HandlersOnlySet(cfg, mib, run[k]);
        assert own(run[k + 1].st) == own(After(cfg, mib, run[k]));
        assert TakesEffect(cfg, mib, run[k]) && own(run[k].st) != own(run[k + 1].st);
      }
    }
  }

  // ---------------------------------------------------------------- what a run leaves

  /** The authorised SetRequests of a run, in order. */
  function WritesOf<S>(cfg: Config, run: seq<Arrival<S>>): seq<Bytes> {
    if run == [] then []
    else WritesOf(cfg, run[..|run| - 1]) + if IsWrite(cfg, run[|run| - 1].msg) then [run[|run| - 1].msg] else []
  }

  /** What a series of writes makes of a state. */
  ghost function Written<S(!new)>(cfg: Config, mib: Registered<S>, st: S, msgs: seq<Bytes>): S
    requires WellFormed(mib)
  {
    if msgs == [] then st
    else After(cfg, mib, Arrival(Written(cfg, mib, st, msgs[..|msgs| - 1]), msgs[|msgs| - 1], 1))
  }

  /** What a datagram makes of the part that own picks out depends on that part alone. */
  ghost predicate StandsAlone<S(!new), T(!new)>(cfg: Config, mib: Registered<S>, own: S -> T)
    requires WellFormed(mib)
  {
    forall s: S, t: S, msg | own(s) == own(t) ::
      own(After(cfg, mib, Arrival(s, msg, 1))) == own(After(cfg, mib, Arrival(t, msg, 1)))
  }

  /** How much room there is for the answer makes no difference to the state. */
  lemma RoomIsIrrelevant<S(!new)>(cfg: Config, mib: Registered<S>, a: Arrival<S>)
    requires WellFormed(mib) && a.cap > 0
    ensures After(cfg, mib, a) == After(cfg, mib, Arrival(a.st, a.msg, 1))
  {
    hide RequestIn, WellFormed, Dispatch, EncMessage;
  }

  /** Over any run, a part of the state that is left to setters and stands alone is in the end what the authorised
      SetRequests make of it: requests that were refused, malformed, or only read leave no trace there, nor does
      anything that happened in between. */
  lemma {:induction false} RunIsItsWrites<S(!new), T(!new)>(cfg: Config, mib: Registered<S>, own: S -> T,
                                                          run: seq<Arrival<S>>)
    requires WellFormed(mib) && LeftToSetters(cfg, mib, own, run) && StandsAlone(cfg, mib, own) && run != []
    requires forall k | 0 <= k < |run| :: run[k].cap > 0
    ensures own(After(cfg, mib, run[|run| - 1])) == own(Written(cfg, mib, run[0].st, WritesOf(cfg, run)))
  {
    hide After, IsWrite, TakesEffect, WellFormed;
    var before, last := run[..|run| - 1], run[|run| - 1];
    if before == [] {
      assert WritesOf(cfg, before) == [];
    } else {
      RunIsItsWrites(cfg, mib, own, before);
    }
    var done := WritesOf(cfg, before);
    var written := Written(cfg, mib, run[0].st, done);
    assert own(last.st) == own(written);
    if IsWrite(cfg, last.msg) {
      RoomIsIrrelevant(cfg, mib, last);
      assert (done + [last.msg])[..|done|] == done;
      assert own(After(cfg, mib, Arrival(last.st, last.msg, 1))) == own(After(cfg, mib, Arrival(written, last.msg, 1)));
    } else {
      HandlersOnlySet(cfg, mib, last);
      assert !TakesEffect(cfg, mib, last) by { NoWriteNoEffect(cfg, mib, last); }
      assert done + [] == done;
    }
  }

  lemma NoWriteNoEffect<S(!new)>(cfg: Config, mib: Registered<S>, a: Arrival<S>)
    requires WellFormed(mib) && !IsWrite(cfg, a.msg)
    ensures !TakesEffect(cfg, mib, a)
  {
  }

  /** Nothing at all happens between datagrams, and getters write nothing: each datagram finds what the one before it
      left. */
  ghost predicate Undisturbed<S(!new)>(cfg: Config, mib: Registered<S>, run: seq<Arrival<S>>)
    requires WellFormed(mib)
  {
    forall k | 0 < k < |run| :: run[k].st == After(cfg, mib, run[k - 1])
  }

  /** An undisturbed run leaves exactly what its authorised SetRequests make of the state it began with. */
  lemma UndisturbedRun<S(!new)>(cfg: Config, mib: Registered<S>, run: seq<Arrival<S>>)
    requires WellFormed(mib) && Undisturbed(cfg, mib, run) && run != []
    requires forall k | 0 <= k < |run| :: run[k].cap > 0
    ensures After(cfg, mib, run[|run| - 1]) == Written(cfg, mib, run[0].st, WritesOf(cfg, run))
  {
    hide After, WellFormed, WritesOf, Written;
    var all := (st: S) => st;
    RunIsItsWrites(cfg, mib, all, run);
  }

  // ---------------------------------------------------------------- a getter that keeps books

  /** Each datagram finds what the one before it left, and the getters' entries. */
  ghost predicate FollowsBook<S(!new)>(cfg: Config, mib: Registered<S>, book: (S, Bytes) -> S, run: seq<Arrival<S>>)
    requires WellFormed(mib)
  {
    forall k | 0 < k < |run| :: run[k].st == Settled(cfg, mib, book, run[k - 1])
  }

  const DEMO_CONFIG := Config([112], [119])

  /** A temperature, 1.3.0, and how often it has been read, 1.3.1. */
  function TempAndCount(): seq<Object<uint64>> {
    [Object(ScalarName(0), TAG_INTEGER, RO, (st: uint64) => Answer(MibOk, Integer(200)), None),
     Object(ScalarName(1), TAG_COUNTER64, RO, (st: uint64) => Answer(MibOk, Counter64(st)), None)]
  }

  function TimesNamed(vbs: seq<Varbind>, name: Oid): nat {
    if vbs == [] then 0 else (if vbs[0].oid == name then 1 else 0) + TimesNamed(vbs[1..], name)
  }

  /** The entry that a v2c GET makes: one for each time it names the temperature. */
  function CountReads(st: uint64, msg: Bytes): uint64 {
    var q := RequestIn(DEMO_CONFIG, msg);
    if q.Some? && q.value.version == V2C && q.value.pdu.tag == PDU_GET then
      (st + TimesNamed(q.value.pdu.varbinds, ScalarName(0))) % 0x1_0000_0000_0000_0000
    else st
  }

  function GetOf(i: uint32): Fields {
    Fields(PDU_GET, 7, 0, 0, [Varbind(ScalarName(i), Null)])
  }

  function GetMessage(i: uint32): Bytes {
    var enc := EncMessage(V2C, DEMO_CONFIG.ro, GetOf(i));
    if enc.Some? then enc.value else []
  }

  lemma GetArrives(i: uint32)
    requires i < 2
    ensures EncMessage(V2C, DEMO_CONFIG.ro, GetOf(i)).Some?
    ensures RequestIn(DEMO_CONFIG, GetMessage(i)) == Some(Request(V2C, ReadOnly, DEMO_CONFIG.ro, GetOf(i)))
    ensures !IsWrite(DEMO_CONFIG, GetMessage(i)) && GetMessage(i) != []
  {
    assert GetOf(i).varbinds[1..] == [];
    assert AllCarriable(GetOf(i).varbinds);
    hide EncMessage, RequestIn, AllCarriable;
    RequestMessageIsRead(DEMO_CONFIG, V2C, DEMO_CONFIG.ro, GetOf(i));
  }

  function CountReply(st: uint64): Fields {
    Fields(PDU_RESPONSE, 7, NO_ERROR, 0, [Varbind(ScalarName(1), Counter64(st))])
  }

  lemma CountIsRead(st: uint64)
    ensures WellFormed(OneModule(TempAndCount()))
    ensures ReadReply(OneModule(TempAndCount()), st, V2C, ExactMatch, GetOf(1)) == CountReply(st)
  {
    hide WellFormed, Fetch, OneModule;
    NumberedFetch(TempAndCount(), st, ScalarName(0), 1);
    var os := Outcomes(OneModule(TempAndCount()), st, V2C, ExactMatch, GetOf(1).varbinds);
    assert os[0] == Good(Varbind(ScalarName(1), Counter64(st)));
    FirstAbortIs(V2C, os, 1);
  }

  lemma DifferentPdusDiffer(version: Version, community: Bytes, f: Fields, g: Fields)
    requires |community| < MAX_PRINCIPAL && f != g
    requires AllCarriable(f.varbinds) && AllCarriable(g.varbinds)
    requires |f.varbinds| <= MAX_VARBINDS && |g.varbinds| <= MAX_VARBINDS
    ensures EncMessage(version, community, f) != EncMessage(version, community, g)
  {
    hide EncMessage, ParseByManager, AllCarriable;
    MessageSize(version, community, f);
    MessageSize(version, community, g);
    MessageRoundTrip(version, community, f);
    MessageRoundTrip(version, community, g);
  }

  lemma NamedIn(i: uint32)
    ensures TimesNamed(GetOf(i).varbinds, ScalarName(0)) == if i == 0 then 1 else 0
  {
    var rest := GetOf(i).varbinds[1..];
    assert rest == [] && TimesNamed(rest, ScalarName(0)) == 0;
    assert ScalarName(i)[2] == i;
  }

  /** A GET of the temperature moves the count by one, a GET of the count does not. */
  lemma GetIsEntered(i: uint32, st: uint64)
    requires i < 2
    ensures CountReads(st, GetMessage(i)) == if i == 0 then (st + 1) % 0x1_0000_0000_0000_0000 else st
  {
    hide RequestIn, GetMessage, IsWrite, EncMessage, TimesNamed, ScalarName;
    GetArrives(i);
    NamedIn(i);
  }

  lemma CountIsCarriable(st: uint64)
    ensures AllCarriable(CountReply(st).varbinds)
  {
    assert CountReply(st).varbinds[1..] == [];
  }

  /** No GET is a write; the answer to a GET of the count tells the state. */
  lemma GetIsServed(i: uint32, st: uint64)
    requires i < 2
    ensures WellFormed(OneModule(TempAndCount()))
    ensures After(DEMO_CONFIG, OneModule(TempAndCount()), Arrival(st, GetMessage(i), 1472)) == st
    ensures i == 1 ==> Respond(DEMO_CONFIG, OneModule(TempAndCount()), st, GetMessage(i), 1472).datagram ==
                       EncMessage(V2C, DEMO_CONFIG.ro, CountReply(st))
  {
    hide EncMessage, RequestIn, AllCarriable, WellFormed, ReadReply, OneModule, TempAndCount, GetMessage, IsWrite;
    GetArrives(i);
    CountIsRead(st);
    CountIsCarriable(st);
    MessageSize(V2C, DEMO_CONFIG.ro, CountReply(st));
  }

  /** Two runs, one with a datagram first that is no write but gets an entry. */
  lemma EntryShows(cfg: Config, mib: Registered<uint64>, book: (uint64, Bytes) -> uint64, first: Bytes, next: Bytes)
    requires WellFormed(mib) && !IsWrite(cfg, first) && !IsWrite(cfg, next)
    requires After(cfg, mib, Arrival(0, first, 1472)) == 0 && book(0, first) == 1
    requires After(cfg, mib, Arrival(1, next, 1472)) == 1
    requires Respond(cfg, mib, 0, next, 1472).datagram != Respond(cfg, mib, 1, next, 1472).datagram
    ensures var arrival := Arrival(0 as uint64, first, 1472);
            LeavesTraces(cfg, mib, book, [Arrival(0 as uint64, next, 1472)],
                         [arrival, Arrival(Settled(cfg, mib, book, arrival), next, 1472)])
  {
    hide Respond, WellFormed, IsWrite, After;
    var arrival := Arrival(0 as uint64, first, 1472);
    NoWritesIn(cfg, [Arrival(0 as uint64, next, 1472)]);
    NoWritesIn(cfg, [arrival, Arrival(Settled(cfg, mib, book, arrival), next, 1472)]);
  }

  /** Two runs that follow the book from the same state, without any write, and end with the same datagram: it is
      answered differently, and the second run does not leave what its writes make of the first state. */
  ghost predicate LeavesTraces<S(!new)>(cfg: Config, mib: Registered<S>, book: (S, Bytes) -> S,
                                        short: seq<Arrival<S>>, long: seq<Arrival<S>>)
    requires WellFormed(mib) && short != [] && long != []
  {
    var x, y := short[|short| - 1], long[|long| - 1];
    && FollowsBook(cfg, mib, book, short) && FollowsBook(cfg, mib, book, long)
    && short[0].st == long[0].st && WritesOf(cfg, short) == WritesOf(cfg, long) == []
    && x.msg == y.msg && x.cap == y.cap
    && Respond(cfg, mib, x.st, x.msg, x.cap).datagram != Respond(cfg, mib, y.st, y.msg, y.cap).datagram
    && After(cfg, mib, y) != Written(cfg, mib, long[0].st, WritesOf(cfg, long))
  }

  /** Where getters keep books, UndisturbedRun does not hold. A GET of the temperature is no write, but it moves the
      count: a GET of the count is answered differently after it than without it. */
  lemma ReadsLeaveTraces()
    ensures WellFormed(OneModule(TempAndCount()))
    ensures var mib, first := OneModule(TempAndCount()), Arrival(0 as uint64, GetMessage(0), 1472);
            LeavesTraces(DEMO_CONFIG, mib, CountReads, [Arrival(0 as uint64, GetMessage(1), 1472)],
                         [first, Arrival(Settled(DEMO_CONFIG, mib, CountReads, first), GetMessage(1), 1472)])
  {
    hide EncMessage, AllCarriable, WellFormed, Respond, OneModule, TempAndCount, IsWrite, After, CountReads;
    hide GetMessage, CountReply, LeavesTraces, RequestIn, GetOf;
    GetArrives(0);
    GetArrives(1);
    GetIsServed(0, 0);
    GetIsEntered(0, 0);
    GetIsServed(1, 0);
    GetIsServed(1, 1);
    CountsDiffer();
    EntryShows(DEMO_CONFIG, OneModule(TempAndCount()), CountReads, GetMessage(0), GetMessage(1));
  }

  lemma CountsDiffer()
    ensures EncMessage(V2C, DEMO_CONFIG.ro, CountReply(0)) != EncMessage(V2C, DEMO_CONFIG.ro, CountReply(1))
  {
    CountIsCarriable(0);
    CountIsCarriable(1);
    hide EncMessage, AllCarriable;
    DifferentPdusDiffer(V2C, DEMO_CONFIG.ro, CountReply(0), CountReply(1));
  }

  lemma {:induction false} NoWritesIn<S>(cfg: Config, run: seq<Arrival<S>>)
    requires forall k | 0 <= k < |run| :: !IsWrite(cfg, run[k].msg)
    ensures WritesOf(cfg, run) == []
  {
    if run != [] {
      NoWritesIn(cfg, run[..|run| - 1]);
    }
  }
}
