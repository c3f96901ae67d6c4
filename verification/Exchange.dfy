/** The transaction discipline of the two queues, on the tags of one scope. */
module Exchange {
  import opened Types
  import opened Transactions
  import opened ProtocolSpec

  /** What a router turn does in one scope: nothing, take an answer, answer a
      request, or make a request. `c` is consumed, `o` is sent. */
  ghost predicate RouterTurn(c: seq<Tag>, o: seq<Tag>, before: Option<RequestKind>, after: Option<RequestKind>) {
    || (c == [] && o == [] && after == before)
    || (|c| == 1 && c[0].Response? && o == [] && after == None)
    || (|c| == 1 && c[0].Request? && o == [Response(c[0].kind)] && before == None && after == None)
    || (c == [] && |o| == 1 && o[0].Request? && before == None && after == Some(o[0].kind))
  }

  /** The same for the modem, which may also defer an answer and give it later. */
  ghost predicate ModemTurn(c: seq<Tag>, o: seq<Tag>, before: Option<RequestKind>, after: Option<RequestKind>,
                            deferred: bool, deferred': bool) {
    || (c == [] && o == [] && after == before && deferred' == deferred)
    || (|c| == 1 && c[0].Response? && o == [] && after == None && deferred' == deferred)
    || (|c| == 1 && c[0].Request? && before == None && after == None && !deferred
        && (if deferred' then c[0].kind == LinkCharacteristicsKind && o == [] else o == [Response(c[0].kind)]))
    || (c == [] && |o| == 1 && o[0].Request? && before == None && after == Some(o[0].kind) && deferred' == deferred)
    || (c == [] && o == [Response(LinkCharacteristicsKind)] && deferred && !deferred'
        && before == None && after == None)
  }

  /** A consumed tag splits the inbox. */
  lemma Split(c: seq<Tag>, rest: seq<Tag>, slot: Option<RequestKind>)
    requires InboxOk(c + rest, slot) && |c| <= 1
    ensures c == [] ==> c + rest == rest
    ensures |c| == 1 && c[0].Response? ==>
              slot == Some(c[0].kind) && (rest == [] || (|rest| == 1 && rest[0].Request?))
              && HasResponse(c + rest) && HasRequest(c + rest) == HasRequest(rest)
    ensures |c| == 1 && c[0].Request? ==> rest == [] && HasRequest(c + rest) && !HasResponse(c + rest)
  {
    if |c| == 1 {
      assert (c + rest)[0] == c[0];
      if rest != [] {
        assert (c + rest)[|rest|] == rest[|rest| - 1];
      }
    }
  }

  /** Sending into a lane with nothing of the same sort in it. */
  lemma Push(lane: seq<Tag>, t: Tag, slot: Option<RequestKind>)
    requires InboxOk(lane, slot) && !HasRequest(lane)
    requires t.Response? ==> !HasResponse(lane) && slot == Some(t.kind)
    ensures InboxOk(lane + [t], slot)
    ensures HasRequest(lane + [t]) == t.Request?
    ensures HasResponse(lane + [t]) == (t.Response? || HasResponse(lane))
    ensures t.Request? ==> (lane + [t])[|lane + [t]| - 1] == t
  {
    if |lane| > 0 {
      assert (lane + [t])[0] == lane[0];
    }
  }

  lemma RouterExchange(a: seq<Tag>, c: seq<Tag>, rest: seq<Tag>, o: seq<Tag>,
                       before: Option<RequestKind>, after: Option<RequestKind>,
                       modem: Option<RequestKind>, deferred: bool)
    requires RouterTurn(c, o, before, after) && InboxOk(c + rest, before)
    ensures InboxOk(rest, after)
    ensures InboxOk(a, modem) && Conserved(a, c + rest, before, modem, deferred) ==>
              InboxOk(a + o, modem) && Conserved(a + o, rest, after, modem, deferred)
  {
    Split(c, rest, before);
    if InboxOk(a, modem) && Conserved(a, c + rest, before, modem, deferred) {
      if o == [] {
        assert a + o == a;
      } else {
        Push(a, o[0], modem);
        assert a + o == a + [o[0]];
      }
    }
  }

  lemma ModemExchange(c: seq<Tag>, rest: seq<Tag>, b: seq<Tag>, o: seq<Tag>, router: Option<RequestKind>,
                      before: Option<RequestKind>, after: Option<RequestKind>, deferred: bool, deferred': bool)
    requires ModemTurn(c, o, before, after, deferred, deferred') && InboxOk(c + rest, before)
    ensures InboxOk(rest, after)
    ensures InboxOk(b, router) && Conserved(c + rest, b, router, before, deferred) ==>
              InboxOk(b + o, router) && Conserved(rest, b + o, router, after, deferred')
  {
    Split(c, rest, before);
    if InboxOk(b, router) && Conserved(c + rest, b, router, before, deferred) {
      if o == [] {
        assert b + o == b;
      } else {
        Push(b, o[0], router);
        assert b + o == b + [o[0]];
      }
    }
  }
}
