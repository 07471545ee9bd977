/**
 Requests that are refused at the transport: a head with both Transfer-Encoding
 and Content-Length never reaches a handler (src/app/http1.rs, src/app/server.rs,
 section 6.3 of RFC 9112).
 */
module Http1Refusals {
  import opened Basics
  import opened Text
  import opened Http1Head
  import opened Http1Machine
  import opened Http1Runs

  /** The head at the front of `b` has both fields. */
  ghost predicate BothFields(library: Library, b: string) {
    && library(b).Complete?
    && SomeField(library(b).headers, "transfer-encoding") && SomeField(library(b).headers, "content-length")
  }

  predicate Refused(verdict: Verdict) {
    verdict == Ambiguous || verdict == Unclassified
  }

  /** Each request has its status, a refused one is answered 400 and ends the connection. */
  ghost predicate RefusalsAnswered(c: Connection) {
    && |c.answered| == |c.given|
    && (forall n :: 0 <= n < |c.given| && Refused(c.given[n]) ==> c.answered[n] == 400 && c.closing)
  }

  lemma {:induction false} RunAnswersRefusals(p: Parser, max: nat, c: Connection, events: seq<Event>)
    requires Lawful(p) && QueueOk(c.io) && RefusalsAnswered(c)
    ensures RefusalsAnswered(Run(p, max, c, events))
    decreases |events|
  {
    if events != [] {
      var next := Happen(p, max, c, events[0]);
      assert RefusalsAnswered(next);
      RunAnswersRefusals(p, max, next, events[1..]);
    }
  }

  lemma BothAreAmbiguous(library: Library, b: string)
    requires BothFields(library, b)
    ensures var h := InspectWith(library)(b);
            h.CompleteHead? && h.verdict == Ambiguous && h.length == library(b).length
  {
    VerdictIff(library(b).verb, library(b).headers);
  }

  /** A head with both fields that fits the limit is only explained by that. */
  lemma OnlyAmbiguous(p: Parser, max: nat, b: string, verdict: Verdict)
    requires Lawful(p) && p(b).CompleteHead? && p(b).verdict == Ambiguous && p(b).length <= max
    requires Explains(p, max, b, verdict)
    ensures verdict == Ambiguous
  {
    if Oversize(p, max, b) {
      OversizeComplete(p, max, b);
    }
  }

  /** On every run, a dispatched request whose head has both fields is answered
      400, is the last one, and closes the connection. */
  lemma BothFieldsRefused(library: Library, max: nat, events: seq<Event>, n: nat)
    requires Lawful(InspectWith(library))
    requires n < |Run(InspectWith(library), max, NEW, events).given|
    requires var p := InspectWith(library);
             var c := Run(p, max, NEW, events);
             && Offset(p, c.received, n) <= |c.received|
             && var b := c.received[Offset(p, c.received, n)..];
                BothFields(library, b) && library(b).length <= max
    ensures var c := Run(InspectWith(library), max, NEW, events);
            && |c.answered| == |c.given| && Refused(c.given[n]) && c.answered[n] == 400
            && n == |c.given| - 1 && c.closing
  {
    var p := InspectWith(library);
    var c := Run(p, max, NEW, events);
    var b := c.received[Offset(p, c.received, n)..];
    BothAreAmbiguous(library, b);
    EveryRequestExplained(p, max, events, n);
    RunAnswersRefusals(p, max, NEW, events);
    if n < c.io.taken {
      OnlyAmbiguous(p, max, b, c.given[n]);
    }
  }

  /** A longer head, cut at the limit, is served: its handler answers. */
  lemma LongHeadServed(p: Parser, max: nat, b: string, status: nat) returns (events: seq<Event>)
    requires Lawful(p) && max > 0 && p(b).CompleteHead? && p(b).length > max
    ensures var c := Run(p, max, NEW, events);
            c.received == b && c.given == [Terminal] && c.answered == [status]
  {
    assert Tail(p, b, []) == Some(b);
    var cut := CutMisfit(p, max, b, []);
    assert [] + [Terminal] == [Terminal];
    events := ServeAfter(p, max, b[..cut], b[cut..], status);
    assert b[..cut] + b[cut..] == b;
  }

  /** Two reads, the first of which ends the inspection, and a dispatch. */
  lemma ServeAfter(p: Parser, max: nat, front: string, back: string, status: nat) returns (events: seq<Event>)
    requires Lawful(p)
    requires var after := Observe(p, max, FRESH, front); after.log == [Terminal] && after.state.Passthrough?
    ensures var c := Run(p, max, NEW, events);
            c.received == front + back && c.given == [Terminal] && c.answered == [status]
  {
    var after := Observe(p, max, FRESH, front);
    var c1 := Connection(after, front, [], [], false, false);
    assert Happen(p, max, NEW, Read(front)) == c1 by {
      assert "" + front == front;
    }
    var c2 := c1.(received := front + back);
    assert Happen(p, max, c1, Read(back)) == c2;
    var c3 := Happen(p, max, c2, Dispatch(status));
    assert c3.given == [Terminal] && c3.answered == [status];
    RunThree(p, max, NEW, Read(front), Read(back), Dispatch(status));
    events := [Read(front), Read(back), Dispatch(status)];
  }

  lemma RunThree(p: Parser, max: nat, c: Connection, e1: Event, e2: Event, e3: Event)
    requires Lawful(p) && QueueOk(c.io)
    ensures Run(p, max, c, [e1, e2, e3])
         == Happen(p, max, Happen(p, max, Happen(p, max, c, e1), e2), e3)
  {
    var c1 := Happen(p, max, c, e1);
    var c2 := Happen(p, max, c1, e2);
    assert [e1, e2, e3][1..] == [e2, e3] && [e2, e3][1..] == [e3] && [e3][1..] == [];
    assert Run(p, max, c2, [e3]) == Run(p, max, Happen(p, max, c2, e3), []);
    assert Run(p, max, c1, [e2, e3]) == Run(p, max, c2, [e3]);
  }

  /** Whatever the reads, a first request with both fields is answered 400. */
  ghost predicate AlwaysRefused(library: Library, max: nat, b: string)
    requires Lawful(InspectWith(library))
  {
    forall events :: var c := Run(InspectWith(library), max, NEW, events);
      c.received == b && c.given != [] ==> |c.answered| == |c.given| && c.answered[0] == 400
  }

  /** That is so if and only if the head fits the limit. */
  lemma BothFieldsRefusedIff(library: Library, max: nat, b: string)
    requires Lawful(InspectWith(library)) && max > 0 && BothFields(library, b)
    ensures AlwaysRefused(library, max, b) <==> library(b).length <= max
  {
    var p := InspectWith(library);
    if library(b).length <= max {
      forall events | Run(p, max, NEW, events).received == b && Run(p, max, NEW, events).given != []
        ensures var c := Run(p, max, NEW, events); |c.answered| == |c.given| && c.answered[0] == 400
      {
        assert Offset(p, b, 0) == 0 && b[0..] == b;
        BothFieldsRefused(library, max, events, 0);
      }
    } else {
      BothAreAmbiguous(library, b);
      var events := LongHeadServed(p, max, b, 200);
    }
  }
}
