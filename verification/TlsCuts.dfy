/** Exactly when the way a stream is cut into packets does not matter to an established TLS client. */
module TlsCuts {
  import opened Outcomes
  import opened Binary
  import opened Scanner
  import opened TlsRecords
  import opened TlsModel
  import opened TlsRuns
  import opened TlsTraffic
  import TlsPeer
  import Tcp = TcpModel

  predicate Established(st: Tls) {
    st.phase == ServerFinished && st.keys.Some?
  }

  // ----- A drain in closed form -----

  /** Bytes lost with a record that is shorter than its explicit IV. */
  function Skip(r: Bytes): (n: nat)
    requires |r| >= 5
    ensures n <= |r|
  {
    if |r| >= 13 then 13 else 5
  }

  lemma PollRunt(env: Env, st: Tls)
    requires Established(st) && IsRunt(st.buf)
    ensures Receive(env, st) == Got(None, st.(buf := st.buf[Skip(st.buf)..]))
  {
    assert |st.buf| >= 13 ==> st.buf[5..][8..] == st.buf[13..];
  }

  lemma {:induction false} OpenAllAppend(env: Env, keys: Keys, from: uint64, a: seq<Bytes>, b: seq<Bytes>)
    ensures OpenAll(env, keys, from, a + b)
         == OpenAll(env, keys, from, a) + OpenAll(env, keys, Number(from + |a|), b)
  {
    hide Decrypted;
    if b == [] {
      assert a + b == a;
    } else {
      var n := |b| - 1;
      OpenAllAppend(env, keys, from, a, b[..n]);
      assert (a + b)[..|a| + n] == a + b[..n] && (a + b)[|a| + n] == b[n];
      NumberAdds(from + |a|, n);
    }
  }

  lemma NumberAdds(a: nat, b: nat)
    ensures Number(Number(a) + b) == Number(a + b)
  {
  }

  /** The state after `n` records have been returned and the buffer holds `rest`. */
  function AfterRecords(st: Tls, n: nat, rest: Bytes): Tls {
    st.(buf := rest, readSeq := Number(st.readSeq + n))
  }

  /** What a drain does to a client whose buffer parses to `p`. */
  function DrainOf(env: Env, st: Tls, p: Parsed): Drained
    requires Established(st)
  {
    if p.bad && !IsRunt(p.rest) then Aborted
    else Drained(OpenAll(env, st.keys.value, st.readSeq, p.items),
                 AfterRecords(st, |p.items|, if p.bad then p.rest[Skip(p.rest)..] else p.rest))
  }

  /** After a drain that met no bad record, the next drain goes on with the parse. */
  lemma DrainGoesOn(env: Env, st: Tls, p: Parsed, q: Parsed)
    requires Established(st) && !p.bad
    ensures var a, b := DrainOf(env, st, p), DrainOf(env, AfterRecords(st, |p.items|, p.rest), q);
            DrainOf(env, st, q.After(p.items)) == if b.Aborted? then Aborted else Drained(a.outs + b.outs, b.st)
  {
    hide IsRunt;
    hide OpenAll;
    OpenAllAppend(env, st.keys.value, st.readSeq, p.items, q.items);
    NumberAdds(st.readSeq + |p.items|, |q.items|);
    hide Number;
  }

  lemma {:induction false} DrainByParse(env: Env, st: Tls)
    requires Established(st)
    ensures Drain(env, st) == DrainOf(env, st, Parse(ApplicationRule, st.buf))
    decreases |st.buf|
  {
    if IsRunt(st.buf) {
      PollRunt(env, st);
      RuntIsBad(st.buf);
      NothingReturned(env, st);
      hide Receive;
    } else {
      PollApplication(env, st);
      hide IsRunt;
      hide Receive;
      if ApplicationRule(st.buf).Take? {
        var n := ApplicationRule(st.buf).size;
        var next := AfterRecords(st, 1, st.buf[n..]);
        NextNumber(st.readSeq);
        NumberBelow(st.readSeq);
        hide ApplicationRule;
        DrainByParse(env, next);
        TakeFirst(env, st, n, Parse(ApplicationRule, st.buf[n..]));
        hide DrainOf;
        hide Decrypted;
        hide Number;
      } else {
        NothingReturned(env, st);
      }
    }
  }

  lemma NothingReturned(env: Env, st: Tls)
    requires Established(st)
    ensures OpenAll(env, st.keys.value, st.readSeq, []) == []
    ensures forall rest: Bytes :: AfterRecords(st, 0, rest) == st.(buf := rest)
  {
    NumberBelow(st.readSeq);
  }

  /** The first record of a parse and those after it. */
  lemma TakeFirst(env: Env, st: Tls, n: nat, q: Parsed)
    requires Established(st) && 29 < n <= |st.buf|
    ensures var first := Decrypted(env, st.keys.value, st.readSeq, st.buf[5..n]);
            var later := DrainOf(env, AfterRecords(st, 1, st.buf[n..]), q);
            DrainOf(env, st, q.After([st.buf[..n]]))
            == if later.Aborted? then Aborted else Drained([first] + later.outs, later.st)
  {
    var record := st.buf[..n];
    assert record[5..] == st.buf[5..n];
    hide Decrypted;
    OneOpened(env, st.keys.value, st.readSeq, record);
    DrainGoesOn(env, st, Parsed([record], st.buf[n..], false), q);
    hide OpenAll;
    hide IsRunt;
    hide Number;
  }

  lemma DrainHeld(env: Env, st: Tls, held: Bytes)
    requires Established(st)
    ensures Drain(env, st.(buf := held)) == DrainOf(env, st, Parse(ApplicationRule, held))
  {
    DrainByParse(env, st.(buf := held));
    hide Drain;
    var p := Parse(ApplicationRule, held);
    hide Parse;
    hide ApplicationRule;
    BufIgnored(env, st, held, p);
    hide DrainOf;
  }

  lemma BufIgnored(env: Env, st: Tls, held: Bytes, p: Parsed)
    requires Established(st)
    ensures DrainOf(env, st.(buf := held), p) == DrainOf(env, st, p)
  {
    hide OpenAll;
    hide IsRunt;
    hide Number;
  }

  lemma OneOpened(env: Env, keys: Keys, from: uint64, record: Bytes)
    requires |record| > 29
    ensures OpenAll(env, keys, from, [record]) == [Decrypted(env, keys, from, record[5..])]
  {
    NumberBelow(from);
    hide Decrypted;
    OpenNext(env, keys, from, [], record);
    assert [] + [record] == [record];
  }

  // ----- Pieces -----

  /** The bytes arrive in pieces, which may be empty like the payload of a bare acknowledgement, and the
      client is drained after each. */
  function DrainPieces(env: Env, st: Tls, pieces: seq<Bytes>): Drained {
    if pieces == [] then Drained([], st)
    else Next(env, DrainPieces(env, st, pieces[..|pieces| - 1]), pieces[|pieces| - 1])
  }

  /** One more piece and one more drain. */
  function Next(env: Env, before: Drained, piece: Bytes): Drained {
    if before.Aborted? then Aborted
    else
      var d := Drain(env, before.st.(buf := before.st.buf + piece));
      if d.Aborted? then Aborted else Drained(before.outs + d.outs, d.st)
  }

  /** However `s` is cut, plaintexts and final state are those of `s` arriving at once. */
  ghost predicate CutsDoNotMatter(env: Env, st: Tls, s: Bytes) {
    forall pieces: seq<Bytes> ::
      pieces != [] && Concat(pieces) == s ==>
        DrainPieces(env, st, pieces) == Drain(env, st.(buf := st.buf + s))
  }

  /** The condition, on the bytes alone. With `held` buffered and `s` to come, no record is shorter than
      its IV, or what is left after the loss that it causes is less than a record and no cut can fall
      into the thirteen bytes that are lost. */
  predicate Uncuttable(held: Bytes, s: Bytes) {
    var p := Parse(ApplicationRule, held + s);
    p.bad && IsRunt(p.rest) ==>
      && ApplicationRule(p.rest[Skip(p.rest)..]) == More
      && (|p.rest| >= 13 ==> |p.rest| - |s| >= 13)
  }

  lemma MoreBefore(a: Bytes, b: Bytes)
    requires ApplicationRule(a + b) == More
    ensures ApplicationRule(a) == More
  {
    ApplicationRuleIncremental();
    assert StableAt(ApplicationRule, a, b);
  }

  lemma RuntBefore(a: Bytes, b: Bytes)
    requires ApplicationRule(a) == Bad && IsRunt(a + b)
    ensures IsRunt(a)
  {
    HeaderStable(a, b);
  }

  lemma RuntStays(a: Bytes, b: Bytes)
    requires IsRunt(a)
    ensures IsRunt(a + b)
  {
    HeaderStable(a, b);
  }

  lemma UncuttableBefore(held: Bytes, s: Bytes, x: Bytes)
    requires Uncuttable(held, s + x)
    ensures Uncuttable(held, s)
  {
    var p := Parse(ApplicationRule, held + s);
    if p.bad && IsRunt(p.rest) {
      ApplicationRuleIncremental();
      ParseAppend(ApplicationRule, held + s, x);
      Assoc(held, s, x);
      RuntStays(p.rest, x);
      hide IsRunt;
      hide Parse;
      hide ApplicationRule;
      LossBefore(p.rest, s, x);
    }
  }

  lemma LossBefore(r: Bytes, s: Bytes, x: Bytes)
    requires |r| >= 5 && ApplicationRule((r + x)[Skip(r + x)..]) == More
    requires |r + x| >= 13 ==> |r + x| - |s + x| >= 13
    ensures ApplicationRule(r[Skip(r)..]) == More && (|r| >= 13 ==> |r| - |s| >= 13)
  {
    hide ApplicationRule;
    var n := Skip(r);
    assert (r + x)[n..] == r[n..] + x;
    MoreBefore(r[n..], x);
  }

  lemma NextAfterGood(env: Env, st: Tls, held: Bytes, x: Bytes)
    requires Established(st) && !Parse(ApplicationRule, held).bad
    ensures Next(env, Drain(env, st.(buf := held)), x) == Drain(env, st.(buf := held + x))
  {
    var p := Parse(ApplicationRule, held);
    DrainHeld(env, st, held);
    DrainHeld(env, AfterRecords(st, |p.items|, p.rest), p.rest + x);
    DrainHeld(env, st, held + x);
    ApplicationRuleIncremental();
    ParseAppend(ApplicationRule, held, x);
    hide Drain;
    hide Parse;
    hide OpenAll;
    DrainGoesOn(env, st, p, Parse(ApplicationRule, p.rest + x));
    hide Number;
    hide IsRunt;
  }

  lemma NextAfterBad(env: Env, st: Tls, held: Bytes, x: Bytes)
    requires Established(st) && Parse(ApplicationRule, held).bad && !IsRunt(Parse(ApplicationRule, held).rest)
    ensures Drain(env, st.(buf := held)) == Drain(env, st.(buf := held + x)) == Aborted
  {
    var p := Parse(ApplicationRule, held);
    DrainHeld(env, st, held);
    DrainHeld(env, st, held + x);
    ApplicationRuleIncremental();
    ParseAppend(ApplicationRule, held, x);
    ParseConserves(ApplicationRule, held);
    if IsRunt(p.rest + x) {
      RuntBefore(p.rest, x);
    }
  }

  /** A buffer that holds less than a record is left alone. */
  lemma DrainNothing(env: Env, st: Tls)
    requires Established(st) && ApplicationRule(st.buf) == More
    ensures Drain(env, st) == Drained([], st)
  {
    PollApplication(env, st);
  }

  lemma NextAfterRunt(env: Env, st: Tls, held: Bytes, x: Bytes)
    requires Established(st) && Parse(ApplicationRule, held).bad && IsRunt(Parse(ApplicationRule, held).rest)
    requires var r := Parse(ApplicationRule, held).rest;
             Skip(r + x) == Skip(r) && ApplicationRule((r + x)[Skip(r)..]) == More
    ensures Next(env, Drain(env, st.(buf := held)), x) == Drain(env, st.(buf := held + x))
  {
    var p := Parse(ApplicationRule, held);
    DrainHeld(env, st, held);
    DrainHeld(env, st, held + x);
    ApplicationRuleIncremental();
    ParseAppend(ApplicationRule, held, x);
    RuntStays(p.rest, x);
    hide Drain;
    hide Parse;
    hide ApplicationRule;
    hide IsRunt;
    AfterLoss(env, st, p, x);
    hide DrainOf;
  }

  lemma AfterLoss(env: Env, st: Tls, p: Parsed, x: Bytes)
    requires Established(st) && p.bad && IsRunt(p.rest) && IsRunt(p.rest + x)
    requires Skip(p.rest + x) == Skip(p.rest) && ApplicationRule((p.rest + x)[Skip(p.rest)..]) == More
    ensures Next(env, DrainOf(env, st, p), x) == DrainOf(env, st, Parsed(p.items, p.rest + x, true))
  {
    var n := Skip(p.rest);
    assert (p.rest + x)[n..] == p.rest[n..] + x;
    DrainNothing(env, AfterRecords(st, |p.items|, p.rest[n..] + x));
    hide Drain;
    hide ApplicationRule;
    hide IsRunt;
    hide OpenAll;
    hide Number;
  }

  lemma NextUncuttable(env: Env, st: Tls, s: Bytes, x: Bytes)
    requires Established(st) && Uncuttable(st.buf, s + x)
    ensures Next(env, Drain(env, st.(buf := st.buf + s)), x) == Drain(env, st.(buf := st.buf + (s + x)))
  {
    var held := st.buf + s;
    var p := Parse(ApplicationRule, held);
    Assoc(st.buf, s, x);
    if !p.bad {
      NextAfterGood(env, st, held, x);
    } else if !IsRunt(p.rest) {
      NextAfterBad(env, st, held, x);
    } else {
      ApplicationRuleIncremental();
      ParseAppend(ApplicationRule, held, x);
      RuntStays(p.rest, x);
      hide Parse;
      hide IsRunt;
      hide ApplicationRule;
      NextAfterRunt(env, st, held, x);
    }
  }

  lemma {:induction false} PiecesUncuttable(env: Env, st: Tls, pieces: seq<Bytes>)
    requires Established(st) && pieces != [] && Uncuttable(st.buf, Concat(pieces))
    ensures DrainPieces(env, st, pieces) == Drain(env, st.(buf := st.buf + Concat(pieces)))
  {
    hide Drain;
    hide Uncuttable;
    hide Next;
    var before, x := pieces[..|pieces| - 1], pieces[|pieces| - 1];
    if before == [] {
      assert [] + x == x;
      FirstPiece(env, st, x);
    } else {
      UncuttableBefore(st.buf, Concat(before), x);
      PiecesUncuttable(env, st, before);
      NextUncuttable(env, st, Concat(before), x);
    }
  }

  lemma FirstPiece(env: Env, st: Tls, x: Bytes)
    ensures Next(env, Drained([], st), x) == Drain(env, st.(buf := st.buf + x))
  {
    hide Drain;
    var d := Drain(env, st.(buf := st.buf + x));
    assert d.Drained? ==> [] + d.outs == d.outs;
  }

  // ----- Cuts that matter -----

  lemma TwoPieces(env: Env, st: Tls, x: Bytes, y: Bytes)
    ensures DrainPieces(env, st, [x, y]) == Next(env, Drain(env, st.(buf := st.buf + x)), y)
    ensures Concat([x, y]) == x + y
  {
    hide Drain;
    FirstPiece(env, st, x);
    hide Next;
    assert [x, y][..1] == [x] && [x][..0] == [];
    assert DrainPieces(env, st, []) == Drained([], st);
    assert DrainPieces(env, st, [x]) == Next(env, Drained([], st), x);
    ConcatOne(x);
  }

  /** A drain of a buffer that holds a record, whole or bad, throws or takes bytes out. */
  lemma DrainTakes(env: Env, st: Tls)
    requires Established(st) && ApplicationRule(st.buf) != More
    ensures Drain(env, st).Drained? ==> |Drain(env, st).st.buf| < |st.buf|
  {
    DrainByParse(env, st);
    hide Drain;
    hide OpenAll;
    if ApplicationRule(st.buf).Take? {
      ApplicationRuleIncremental();
      ParseConserves(ApplicationRule, st.buf);
      assert StableAt(ApplicationRule, st.buf, []);
      var n := ApplicationRule(st.buf).size;
      RestShrinks(st.buf[n..]);
    }
  }

  lemma RestShrinks(s: Bytes)
    ensures |Parse(ApplicationRule, s).rest| <= |s|
  {
    ApplicationRuleIncremental();
    ParseConserves(ApplicationRule, s);
  }

  /** A second drain without new bytes changes something if what the first one left holds a record. */
  lemma EmptyPieceMatters(env: Env, st: Tls, s: Bytes)
    requires Established(st)
    requires var p := Parse(ApplicationRule, st.buf + s);
             p.bad && IsRunt(p.rest) && ApplicationRule(p.rest[Skip(p.rest)..]) != More
    ensures DrainPieces(env, st, [s, []]) != Drain(env, st.(buf := st.buf + s))
  {
    var p := Parse(ApplicationRule, st.buf + s);
    DrainHeld(env, st, st.buf + s);
    TwoPieces(env, st, s, []);
    hide Parse;
    hide IsRunt;
    hide ApplicationRule;
    hide OpenAll;
    var mid := AfterRecords(st, |p.items|, p.rest[Skip(p.rest)..]);
    assert mid.buf + [] == mid.buf;
    DrainTakes(env, mid);
    hide Drain;
    hide Number;
  }

  lemma HeadIsWhole(s: Bytes)
    requires ApplicationRule(s).Take?
    ensures var n := ApplicationRule(s).size; 0 < n <= |s| && ApplicationRule(s[..n]) == Take(n)
  {
    var n := ApplicationRule(s).size;
    assert s == s[..n] + s[n..];
    HeaderStable(s[..n], s[n..]);
  }

  lemma {:induction false} ItemsAreWhole(s: Bytes)
    ensures AllWhole(ApplicationRule, Parse(ApplicationRule, s).items)
    decreases |s|
  {
    if ApplicationRule(s).Take? {
      HeadIsWhole(s);
      hide ApplicationRule;
      var n := ApplicationRule(s).size;
      ItemsAreWhole(s[n..]);
      var items := Parse(ApplicationRule, s[n..]).items;
      assert ([s[..n]] + items)[1..] == items;
    }
  }

  /** The parse of a stream that is cut off behind the header and body of its short record. */
  lemma ParseTruncated(s: Bytes, a: Bytes, b: Bytes)
    requires Parse(ApplicationRule, s).rest == a + b && IsRunt(a)
    ensures var items := Parse(ApplicationRule, s).items;
            && s == Concat(items) + a + b
            && Parse(ApplicationRule, Concat(items) + a) == Parsed(items, a, true)
  {
    var items := Parse(ApplicationRule, s).items;
    ApplicationRuleIncremental();
    ParseConserves(ApplicationRule, s);
    ItemsAreWhole(s);
    ParseOfWhole(ApplicationRule, items, a);
    RuntIsBad(a);
    hide Parse;
    hide ApplicationRule;
    Assoc(Concat(items), a, b);
    assert items + [] == items;
  }

  lemma RuntPrefix(r: Bytes, j: nat)
    requires IsRunt(r) && 5 + BodySize(r) <= j <= |r|
    ensures IsRunt(r[..j])
  {
    assert r == r[..j] + r[j..];
    HeaderStable(r[..j], r[j..]);
  }

  /** With a cut inside the thirteen bytes, only five of them are lost. */
  lemma CutLosesFive(env: Env, st: Tls, x: Bytes, y: Bytes, items: seq<Bytes>, a: Bytes)
    requires Established(st) && Parse(ApplicationRule, st.buf + x) == Parsed(items, a, true)
    requires IsRunt(a) && |a| < 13
    ensures DrainPieces(env, st, [x, y]).Drained? ==>
              |DrainPieces(env, st, [x, y]).st.buf| != |a| + |y| - 13
  {
    TwoPieces(env, st, x, y);
    DrainHeld(env, st, st.buf + x);
    hide Parse;
    hide ApplicationRule;
    hide IsRunt;
    hide OpenAll;
    var mid := AfterRecords(st, |items|, a[5..] + y);
    if Drain(env, mid).Drained? {
      DrainConsumes(env, mid);
    }
    hide Drain;
    hide Number;
  }

  /** All at once, thirteen are. */
  lemma WholeLosesThirteen(env: Env, st: Tls, s: Bytes)
    requires Established(st)
    requires var p := Parse(ApplicationRule, st.buf + s); p.bad && IsRunt(p.rest) && |p.rest| >= 13
    ensures var d := Drain(env, st.(buf := st.buf + s));
            d.Drained? && |d.st.buf| == |Parse(ApplicationRule, st.buf + s).rest| - 13
  {
    DrainHeld(env, st, st.buf + s);
    hide Drain;
    hide Parse;
    hide ApplicationRule;
    hide IsRunt;
    hide OpenAll;
    hide Number;
  }

  lemma CutInside(env: Env, st: Tls, s: Bytes) returns (x: Bytes, y: Bytes)
    requires Established(st)
    requires var p := Parse(ApplicationRule, st.buf + s);
             p.bad && IsRunt(p.rest) && 13 <= |p.rest| < |s| + 13
    ensures Concat([x, y]) == s && DrainPieces(env, st, [x, y]) != Drain(env, st.(buf := st.buf + s))
  {
    var t := st.buf + s;
    var p := Parse(ApplicationRule, t);
    var r := p.rest;
    var k, m := 5 + BodySize(r), |r| - |s|;
    var j := if m <= k then k else m;
    var a, b := r[..j], r[j..];
    assert a + b == r;
    RuntPrefix(r, j);
    ParseTruncated(t, a, b);
    WholeLosesThirteen(env, st, s);
    hide Parse;
    hide IsRunt;
    hide BodySize;
    hide Drain;
    x, y := s[..|s| - |b|], s[|s| - |b|..];
    CutOfStream(st.buf, s, Concat(p.items) + a, b);
    TwoPieces(env, st, x, y);
    CutLosesFive(env, st, x, y, p.items, a);
  }

  lemma CutOfStream(held: Bytes, s: Bytes, front: Bytes, b: Bytes)
    requires held + s == front + b && |b| <= |s|
    ensures s[..|s| - |b|] + s[|s| - |b|..] == s && s[|s| - |b|..] == b && held + s[..|s| - |b|] == front
  {
    var t := held + s;
    assert t[|front|..] == b && t[..|front|] == front;
    assert t[|front|..] == s[|s| - |b|..];
    assert t[..|front|] == held + s[..|s| - |b|];
  }

  /** Exactly when cuts do not matter, for every established client and every input. */
  lemma CutsDoNotMatterIff(env: Env, st: Tls, s: Bytes)
    requires Established(st)
    ensures CutsDoNotMatter(env, st, s) <==> Uncuttable(st.buf, s)
  {
    if Uncuttable(st.buf, s) {
      hide Uncuttable;
      forall pieces: seq<Bytes> | pieces != [] && Concat(pieces) == s
        ensures DrainPieces(env, st, pieces) == Drain(env, st.(buf := st.buf + s))
      {
        PiecesUncuttable(env, st, pieces);
      }
    } else {
      var p := Parse(ApplicationRule, st.buf + s);
      if ApplicationRule(p.rest[Skip(p.rest)..]) != More {
        EmptyPieceMatters(env, st, s);
        TwoPieces(env, st, s, []);
        assert s + [] == s;
      } else {
        var x, y := CutInside(env, st, s);
        assert [x, y] != [];
      }
    }
  }

  // ----- Packets -----

  function Payloads(ps: seq<Tcp.Packet>): seq<Bytes> {
    if ps == [] then [] else Payloads(ps[..|ps| - 1]) + [ps[|ps| - 1].payload]
  }

  /** The same client apart from what TCP is doing. */
  predicate SameButTcp(a: Tls, b: Tls) {
    Established(b) && a == b.(tcp := a.tcp)
  }

  /** TCP has no part in what an established client returns. */
  lemma DrainOfTcp(env: Env, a: Tls, b: Tls, p: Parsed)
    requires SameButTcp(a, b)
    ensures var d, e := DrainOf(env, a, p), DrainOf(env, b, p);
            if e.Aborted? then d.Aborted? else d.Drained? && d.outs == e.outs && SameButTcp(d.st, e.st)
  {
    hide OpenAll;
    hide Number;
    hide IsRunt;
  }

  lemma PacketPiece(env: Env, a: Tls, b: Tls, p: Tcp.Packet, outs: seq<Bytes>)
    requires SameButTcp(a, b) && ProcessPacket(a, p).Ok?
    ensures var d, e := Drain(env, ProcessPacket(a, p).value), Next(env, Drained(outs, b), p.payload);
            d.Drained? ==> e.Drained? && e.outs == outs + d.outs && SameButTcp(d.st, e.st)
  {
    hide Tcp.ProcessPacket;
    var got, put := ProcessPacket(a, p).value, b.(buf := b.buf + p.payload);
    assert SameButTcp(got, put);
    DrainByParse(env, got);
    DrainByParse(env, put);
    hide Drain;
    var q := Parse(ApplicationRule, put.buf);
    hide Parse;
    hide ApplicationRule;
    DrainOfTcp(env, got, put, q);
    hide DrainOf;
    hide SameButTcp;
  }

  /** The worker loop's packets are such pieces. */
  lemma {:induction false} DriveIsPieces(env: Env, st: Tls, ps: seq<Tcp.Packet>)
    requires Established(st)
    ensures var r := TlsPeer.Drive(env, st, ps);
            var d := DrainPieces(env, st, Payloads(ps));
            r.Drained? ==> d.Drained? && r.outs == d.outs && SameButTcp(r.st, d.st)
  {
    hide Drain;
    hide ProcessPacket;
    hide Next;
    if ps == [] {
      assert SameButTcp(st, st);
    } else {
      hide SameButTcp;
      hide DrainPieces;
      var before, p := ps[..|ps| - 1], ps[|ps| - 1];
      DriveIsPieces(env, st, before);
      PiecesSnoc(env, st, Payloads(before), p.payload);
      if TlsPeer.Drive(env, st, ps).Drained? {
        var a, d := TlsPeer.Drive(env, st, before).st, DrainPieces(env, st, Payloads(before));
        PacketPiece(env, a, d.st, p, d.outs);
      }
    }
  }

  lemma PiecesSnoc(env: Env, st: Tls, pieces: seq<Bytes>, piece: Bytes)
    ensures DrainPieces(env, st, pieces + [piece]) == Next(env, DrainPieces(env, st, pieces), piece)
  {
    hide Next;
    assert (pieces + [piece])[..|pieces|] == pieces;
  }

  /** So the packets of two drained runs may be cut differently: if the condition holds they return the
      same plaintexts and end alike. */
  lemma DriveIndependent(env: Env, st: Tls, ps: seq<Tcp.Packet>, qs: seq<Tcp.Packet>)
    requires Established(st) && ps != [] && qs != [] && Concat(Payloads(ps)) == Concat(Payloads(qs))
    requires Uncuttable(st.buf, Concat(Payloads(ps)))
    ensures var r, q := TlsPeer.Drive(env, st, ps), TlsPeer.Drive(env, st, qs);
            r.Drained? && q.Drained? ==> r.outs == q.outs && r.st == q.st.(tcp := r.st.tcp)
  {
    hide TlsPeer.Drive;
    hide Drain;
    hide DrainPieces;
    hide Concat;
    DriveIsPieces(env, st, ps);
    DriveIsPieces(env, st, qs);
    PiecesUncuttable(env, st, Payloads(ps));
    PiecesUncuttable(env, st, Payloads(qs));
  }
}
