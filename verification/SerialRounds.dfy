/**
  The hardware loop of SerialReceiveTransmit (PciSioSerialDxe/SerialIo.c) as a function
  of what the line does: which registers each round accesses, and what becomes of the
  two queues.
 */
module SerialRounds {
  import opened Uefi
  import opened SerialFifo
  import opened Uart

  datatype Config = Config(flowControl: bool, halfHandshake: bool)

  /** The full handshake lowers request-to-send when the receive queue is full. */
  predicate FullHandshake(c: Config) { c.flowControl && !c.halfHandshake }

  datatype Queues = Queues(received: seq<u8>, pending: seq<u8>)

  /** What the line does in one round: the line status, the byte in the receive buffer
      register and the modem status readings of the wait for clear-to-send. */
  datatype Round = Round(lsr: Lsr, byte: u8, msrs: seq<Msr>)

  /** This modem status ends the wait. */
  predicate Clears(c: Config, msr: Msr) { !msr.dcd || msr.cts != c.halfHandshake }

  const CTS_READINGS: nat := 6

  /** The wait for clear-to-send: up to the first status that ends it, or the sixth. */
  predicate CtsWait(c: Config, msrs: seq<Msr>) {
    && 0 < |msrs| <= CTS_READINGS
    && (forall k :: 0 <= k < |msrs| - 1 ==> !Clears(c, msrs[k]))
    && (Clears(c, msrs[|msrs| - 1]) || |msrs| == CTS_READINGS)
  }

  predicate LetsPass(c: Config, msrs: seq<Msr>) {
    !c.flowControl || (msrs != [] && Clears(c, msrs[|msrs| - 1]))
  }

  /** A byte is taken in if the line has one and the queue has room for it. */
  predicate Takes(q: Queues, r: Round) { r.lsr.dr && |q.received| < CAPACITY }

  /** Otherwise a pending byte is tried if the transmitter is ready. */
  predicate Tries(q: Queues, r: Round) { !Takes(q, r) && r.lsr.thre && q.pending != [] }

  predicate Possible(c: Config, q: Queues, r: Round) { Tries(q, r) && c.flowControl ==> CtsWait(c, r.msrs) }

  function MsrReads(msrs: seq<Msr>): (t: seq<Event>)
    ensures |t| == |msrs|
  {
    seq(|msrs|, i requires 0 <= i < |msrs| => MsrRead(msrs[i]))
  }

  function If(b: bool, e: Event): seq<Event> { if b then [e] else [] }

  function SendEvents(c: Config, byte: u8, msrs: seq<Msr>): seq<Event> {
    if !c.flowControl then [ThrWritten(byte)]
    else If(c.halfHandshake, RtsSet(false)) + MsrReads(msrs) + If(LetsPass(c, msrs), ThrWritten(byte))
         + If(c.halfHandshake, RtsSet(true))
  }

  function TakeEvents(c: Config, q: Queues, r: Round): seq<Event> {
    [RbrRead(r.byte)] + If(!Erroneous(r.lsr) && FullHandshake(c) && |q.received| + 1 == CAPACITY, RtsSet(false))
  }

  /** The register accesses of one round. */
  function RoundEvents(c: Config, q: Queues, r: Round): seq<Event> {
    [LsrRead(r.lsr)]
    + (if Takes(q, r) then TakeEvents(c, q, r)
       else if Tries(q, r) then SendEvents(c, q.pending[0], r.msrs)
       else [])
  }

  /** The queues after one round. */
  function RoundAfter(c: Config, q: Queues, r: Round): Queues {
    if Takes(q, r) then (if Erroneous(r.lsr) then q else q.(received := q.received + [r.byte]))
    else if Tries(q, r) && LetsPass(c, r.msrs) then q.(pending := q.pending[1..])
    else q
  }

  /** A round takes in the byte the line has, an erroneous one to drop it, while fewer than 16
      are queued.  Otherwise it sends the first pending byte if the transmitter is ready and,
      under flow control, the last modem status has no carrier, or clear-to-send at the level
      that the kind of handshake asks for. */
  lemma RoundMeans(c: Config, q: Queues, r: Round)
    ensures r.lsr.dr && |q.received| < 16 ==>
              RoundAfter(c, q, r) ==
                if r.lsr.fifoe || r.lsr.pe || r.lsr.fe || r.lsr.bi then q else Queues(q.received + [r.byte], q.pending)
    ensures !(r.lsr.dr && |q.received| < 16) ==>
              var sends := r.lsr.thre && q.pending != [] &&
                           (c.flowControl ==>
                              r.msrs != [] &&
                              var last := r.msrs[|r.msrs| - 1];
                              !last.dcd || (if c.halfHandshake then !last.cts else last.cts));
              RoundAfter(c, q, r) == if sends then Queues(q.received, q.pending[1..]) else q
  {}

  /** Modem status is read up to the first reading that lets the byte pass, six times at most. */
  lemma WaitMeans(c: Config, msrs: seq<Msr>, k: nat)
    requires CtsWait(c, msrs) && k < |msrs|
    ensures 1 <= |msrs| <= 6
    ensures var passes := !msrs[k].dcd || (if c.halfHandshake then !msrs[k].cts else msrs[k].cts);
            && (passes ==> k == |msrs| - 1) && (k == |msrs| - 1 < 5 ==> passes)
  {}

  /** The register accesses of a round that has nothing to take in and something to send. */
  lemma SendMeans(c: Config, q: Queues, r: Round)
    requires !(r.lsr.dr && |q.received| < 16) && r.lsr.thre && q.pending != []
    ensures !c.flowControl ==> RoundEvents(c, q, r) == [LsrRead(r.lsr), ThrWritten(q.pending[0])]
    ensures c.flowControl && !c.halfHandshake ==>
              RoundEvents(c, q, r) ==
                [LsrRead(r.lsr)] + MsrReads(r.msrs) + (if LetsPass(c, r.msrs) then [ThrWritten(q.pending[0])] else [])
    ensures c.flowControl && c.halfHandshake ==>
              RoundEvents(c, q, r) ==
                [LsrRead(r.lsr), RtsSet(false)] + MsrReads(r.msrs)
                + (if LetsPass(c, r.msrs) then [ThrWritten(q.pending[0])] else []) + [RtsSet(true)]
  {
    hide MsrReads, LetsPass;
  }

  /** The three kinds of rounds, told by what has been accessed and moved. */
  lemma TakenRound(c: Config, q: Queues, r: Round, t: seq<Event>, t1: seq<Event>, t': seq<Event>, q': Queues)
    requires Takes(q, r) && t1 == t + [LsrRead(r.lsr)] && t' == t1 + TakeEvents(c, q, r)
    requires q' == q.(received := if Erroneous(r.lsr) then q.received else q.received + [r.byte])
    ensures Possible(c, q, r) && q' == RoundAfter(c, q, r) && t' == t + RoundEvents(c, q, r)
  {
    hide Erroneous, TakeEvents;
    assert t' == t + ([LsrRead(r.lsr)] + TakeEvents(c, q, r));
  }

  lemma SentRound(c: Config, q: Queues, r: Round, t: seq<Event>, t1: seq<Event>, t': seq<Event>, q': Queues)
    requires Tries(q, r) && t1 == t + [LsrRead(r.lsr)] && t' == t1 + SendEvents(c, q.pending[0], r.msrs)
    requires c.flowControl ==> CtsWait(c, r.msrs)
    requires q' == q.(pending := if LetsPass(c, r.msrs) then q.pending[1..] else q.pending)
    ensures Possible(c, q, r) && q' == RoundAfter(c, q, r) && t' == t + RoundEvents(c, q, r)
  {
    hide LetsPass, SendEvents, CtsWait;
    assert t' == t + ([LsrRead(r.lsr)] + SendEvents(c, q.pending[0], r.msrs));
  }

  lemma QuietRound(c: Config, q: Queues, r: Round, t: seq<Event>)
    requires !Takes(q, r) && !Tries(q, r)
    ensures Possible(c, q, r) && q == RoundAfter(c, q, r) && t + [LsrRead(r.lsr)] == t + RoundEvents(c, q, r)
  {
    assert [LsrRead(r.lsr)] + [] == [LsrRead(r.lsr)];
  }

  function After(c: Config, q: Queues, rounds: seq<Round>): Queues {
    if rounds == [] then q
    else RoundAfter(c, After(c, q, rounds[..|rounds| - 1]), rounds[|rounds| - 1])
  }

  function Events(c: Config, q: Queues, rounds: seq<Round>): seq<Event> {
    if rounds == [] then []
    else
      var before := rounds[..|rounds| - 1];
      Events(c, q, before) + RoundEvents(c, After(c, q, before), rounds[|rounds| - 1])
  }

  /** These are rounds of one run of the loop, from the queues q. */
  ghost predicate Rounds(c: Config, q: Queues, rounds: seq<Round>) {
    if rounds == [] then true
    else
      var before, last := rounds[..|rounds| - 1], rounds[|rounds| - 1];
      && Rounds(c, q, before) && Possible(c, After(c, q, before), last)
      && (before != [] ==> before[|before| - 1].lsr.thre && After(c, q, before).pending != [])
  }

  /** These rounds have led from the queues q and the trace t to q' and t'. */
  ghost predicate Played(c: Config, q: Queues, t: seq<Event>, rounds: seq<Round>, q': Queues, t': seq<Event>) {
    Rounds(c, q, rounds) && q' == After(c, q, rounds) && t' == t + (Opening(c, q) + Events(c, q, rounds))
  }

  lemma NothingPlayed(c: Config, q: Queues, t: seq<Event>)
    ensures Played(c, q, t, [], q, t + Opening(c, q))
  {
    assert Opening(c, q) + [] == Opening(c, q);
  }

  lemma OneMoreRound(c: Config, q: Queues, t: seq<Event>, rounds: seq<Round>, q1: Queues, t1: seq<Event>, r: Round,
                     q2: Queues, t2: seq<Event>)
    requires Played(c, q, t, rounds, q1, t1) && Possible(c, q1, r)
    requires rounds == [] || (rounds[|rounds| - 1].lsr.thre && q1.pending != [])
    requires q2 == RoundAfter(c, q1, r) && t2 == t1 + RoundEvents(c, q1, r)
    ensures Played(c, q, t, rounds + [r], q2, t2)
    ensures !(r.lsr.thre && q2.pending != []) ==> Ends(c, q, rounds + [r])
  {
    hide Possible, RoundAfter, RoundEvents, Opening;
    assert (rounds + [r])[..|rounds|] == rounds;
    var opening, before, events := Opening(c, q), Events(c, q, rounds), RoundEvents(c, q1, r);
    assert (t + (opening + before)) + events == t + (opening + (before + events));
  }

  /** The loop ends behind them. */
  predicate Ends(c: Config, q: Queues, rounds: seq<Round>) {
    rounds != [] && !(rounds[|rounds| - 1].lsr.thre && After(c, q, rounds).pending != [])
  }

  /** What the full handshake says in front of the loop. */
  function Opening(c: Config, q: Queues): seq<Event> { If(FullHandshake(c) && |q.received| < CAPACITY, RtsSet(true)) }

  /** The same bytes were appended to what has arrived and to the receive queue. */
  ghost predicate Kept(arrived: seq<u8>, received: seq<u8>, arrived': seq<u8>, received': seq<u8>) {
    exists k :: arrived' == arrived + k && received' == received + k
  }

  lemma KeptNothing(arrived: seq<u8>, received: seq<u8>)
    ensures Kept(arrived, received, arrived, received)
  {
    assert arrived == arrived + [] && received == received + [];
  }

  lemma KeptOne(arrived: seq<u8>, received: seq<u8>, byte: u8)
    ensures Kept(arrived, received, arrived + [byte], received + [byte])
  {}

  lemma KeptMore(a: seq<u8>, r: seq<u8>, a1: seq<u8>, r1: seq<u8>, a2: seq<u8>, r2: seq<u8>)
    requires Kept(a, r, a1, r1) && Kept(a1, r1, a2, r2)
    ensures Kept(a, r, a2, r2)
  {
    var k1 :| a1 == a + k1 && r1 == r + k1;
    var k2 :| a2 == a1 + k2 && r2 == r1 + k2;
    assert a2 == a + (k1 + k2) && r2 == r + (k1 + k2);
  }

  /** With the full handshake, request-to-send is up exactly while there is room. */
  predicate TellsRoom(c: Config, s: Seen, received: seq<u8>) {
    FullHandshake(c) ==> (s.rts <==> |received| < CAPACITY)
  }

  /** Bytes leave in order, none lost, invented or taken back, and what arrives is queued
      in order. */
  ghost predicate Moved(s: Seen, q: Queues, s': Seen, q': Queues) {
    && s.sent <= s'.sent && s'.sent + q'.pending == s.sent + q.pending
    && Kept(s.arrived, q.received, s'.arrived, q'.received) && s.readings <= s'.readings
  }

  lemma MovedNothing(s: Seen, q: Queues)
    ensures Moved(s, q, s, q)
  {
    KeptNothing(s.arrived, q.received);
  }

  lemma MovedOn(s: Seen, q: Queues, s1: Seen, q1: Queues, s2: Seen, q2: Queues)
    requires Moved(s, q, s1, q1) && Moved(s1, q1, s2, q2)
    ensures Moved(s, q, s2, q2)
  {
    KeptMore(s.arrived, q.received, s1.arrived, q1.received, s2.arrived, q2.received);
  }

  lemma {:induction false} SeeMsrs(s: Seen, msrs: seq<Msr>)
    ensures SeeAll(s, MsrReads(msrs)) == s
  {
    if msrs != [] {
      assert MsrReads(msrs)[..|msrs| - 1] == MsrReads(msrs[..|msrs| - 1]);
      SeeMsrs(s, msrs[..|msrs| - 1]);
    }
  }

  lemma SeeIf(s: Seen, b: bool, e: Event)
    ensures SeeAll(s, If(b, e)) == if b then See(s, e) else s
  {
    SeeOne(s, e);
    SeeNothing(s);
  }

  /** Trying to send a byte shows as the byte sent, or not. */
  lemma SeeSend(c: Config, s: Seen, byte: u8, msrs: seq<Msr>)
    ensures SeeAll(s, SendEvents(c, byte, msrs))
            == s.(sent := if LetsPass(c, msrs) then s.sent + [byte] else s.sent, rts := (c.flowControl && c.halfHandshake) || s.rts)
  {
    hide SeeAll, If;
    SeeOne(s, ThrWritten(byte));
    if c.flowControl {
      var lowered, passed := If(c.halfHandshake, RtsSet(false)), If(LetsPass(c, msrs), ThrWritten(byte));
      var raised, s1 := If(c.halfHandshake, RtsSet(true)), if c.halfHandshake then See(s, RtsSet(false)) else s;
      SeeInParts(s, lowered + MsrReads(msrs) + passed, raised);
      SeeInParts(s, lowered + MsrReads(msrs), passed);
      SeeInParts(s, lowered, MsrReads(msrs));
      SeeIf(s, c.halfHandshake, RtsSet(false));
      SeeMsrs(s1, msrs);
      SeeIf(s1, LetsPass(c, msrs), ThrWritten(byte));
      SeeIf(if LetsPass(c, msrs) then See(s1, ThrWritten(byte)) else s1, c.halfHandshake, RtsSet(true));
    }
  }

  lemma SeeTake(c: Config, q: Queues, r: Round, s: Seen)
    requires s.lsr == r.lsr
    ensures SeeAll(s, TakeEvents(c, q, r))
            == if Erroneous(r.lsr) then s
               else s.(arrived := s.arrived + [r.byte], rts := s.rts && !(FullHandshake(c) && |q.received| + 1 == CAPACITY))
  {
    hide SeeAll, If, Erroneous, FullHandshake;
    var full := !Erroneous(r.lsr) && FullHandshake(c) && |q.received| + 1 == CAPACITY;
    SeeInParts(s, [RbrRead(r.byte)], If(full, RtsSet(false)));
    SeeOne(s, RbrRead(r.byte));
    SeeIf(See(s, RbrRead(r.byte)), full, RtsSet(false));
  }

  /** One round conserves the bytes, and the trace shows its line status last. */
  lemma RoundMoves(c: Config, q: Queues, r: Round, s: Seen)
    ensures var s' := SeeAll(s, RoundEvents(c, q, r));
            && Moved(s, q, s', RoundAfter(c, q, r)) && s'.lsr == r.lsr && s'.readings == s.readings + 1
            && (TellsRoom(c, s, q.received) ==> TellsRoom(c, s', RoundAfter(c, q, r).received))
  {
    hide SeeAll, TakeEvents, SendEvents, LetsPass, Erroneous, Kept;
    var s1 := See(s, LsrRead(r.lsr));
    SeeOne(s, LsrRead(r.lsr));
    KeptNothing(s.arrived, q.received);
    if Takes(q, r) {
      SeeInParts(s, [LsrRead(r.lsr)], TakeEvents(c, q, r));
      SeeTake(c, q, r, s1);
      KeptOne(s.arrived, q.received, r.byte);
    } else if Tries(q, r) {
      SeeInParts(s, [LsrRead(r.lsr)], SendEvents(c, q.pending[0], r.msrs));
      SeeSend(c, s1, q.pending[0], r.msrs);
      assert s.sent + q.pending == (s.sent + [q.pending[0]]) + q.pending[1..];
    } else {
      SeeInParts(s, [LsrRead(r.lsr)], []);
      SeeNothing(s1);
    }
  }

  /** Any number of rounds does: for every behaviour of the line, sent followed by pending
      never changes, arrivals are queued in order, the trace ends with the status of the
      last round, and request-to-send goes on telling whether there is room. */
  lemma {:induction false} RoundsMove(c: Config, q: Queues, rounds: seq<Round>, s: Seen)
    ensures var s' := SeeAll(s, Events(c, q, rounds));
            && Moved(s, q, s', After(c, q, rounds)) && s'.readings == s.readings + |rounds|
            && (rounds != [] ==> s'.lsr == rounds[|rounds| - 1].lsr)
            && (TellsRoom(c, s, q.received) ==> TellsRoom(c, s', After(c, q, rounds).received))
  {
    hide SeeAll, RoundEvents, RoundAfter, Moved, TellsRoom;
    if rounds == [] {
      SeeNothing(s);
      MovedNothing(s, q);
    } else {
      var before, last := rounds[..|rounds| - 1], rounds[|rounds| - 1];
      RoundsMove(c, q, before, s);
      var s1, q1 := SeeAll(s, Events(c, q, before)), After(c, q, before);
      SeeInParts(s, Events(c, q, before), RoundEvents(c, q1, last));
      RoundMoves(c, q1, last, s1);
      MovedOn(s, q, s1, q1, SeeAll(s1, RoundEvents(c, q1, last)), RoundAfter(c, q1, last));
    }
  }

  lemma OpeningTells(c: Config, q: Queues, s: Seen)
    ensures var s' := SeeAll(s, Opening(c, q));
            && s'.sent == s.sent && s'.arrived == s.arrived && s'.readings == s.readings
            && ((FullHandshake(c) && |q.received| >= CAPACITY ==> !s.rts) ==> TellsRoom(c, s', q.received))
  {
    SeeIf(s, FullHandshake(c) && |q.received| < CAPACITY, RtsSet(true));
    hide SeeAll;
  }

  /** What a whole run of the loop comes to: it looks at the line once at least, ends with
      nothing pending or the transmitter busy, and leaves request-to-send telling whether
      there is room if it was down while there was none. */
  ghost predicate Exchanged(c: Config, s: Seen, q: Queues, s': Seen, q': Queues) {
    && Moved(s, q, s', q') && s'.readings > s.readings && (q'.pending == [] || !s'.lsr.thre)
    && ((FullHandshake(c) && |q.received| >= CAPACITY ==> !s.rts) ==> TellsRoom(c, s', q'.received))
  }

  /** Whatever the line does in the rounds of a whole run. */
  lemma ExchangeMoves(c: Config, q: Queues, rounds: seq<Round>, s: Seen)
    requires Ends(c, q, rounds)
    ensures var s' := SeeAll(s, Opening(c, q) + Events(c, q, rounds));
            Exchanged(c, s, q, s', After(c, q, rounds))
  {
    hide SeeAll, Opening, Events, After, TellsRoom;
    var s1 := SeeAll(s, Opening(c, q));
    OpeningTells(c, q, s);
    SeeInParts(s, Opening(c, q), Events(c, q, rounds));
    RoundsMove(c, q, rounds, s1);
  }
}
