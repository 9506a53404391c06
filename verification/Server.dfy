/**
 The last step before a response is handed to the transport: `Connection: close`, and HEAD.
 */
module Server {
  import opened Octets
  import opened HttpText
  import opened HeaderList
  import opened R = Response
  import opened Framing
  import Router

  const CONNECTION: Bytes := "Connection"

  /** The fields of a HEAD answer: the framing fields are taken out and put back behind the others. */
  function HeadFields(hs: seq<Header>): seq<Header> {
    var bare := Remove(Remove(hs, CONTENT_LENGTH), TRANSFER_ENCODING);
    var lengths, codings := Values(hs, CONTENT_LENGTH), Values(hs, TRANSFER_ENCODING);
    var withLength := if lengths == [] then bare else Set(bare, CONTENT_LENGTH, lengths[0]);
    if codings == [] then withLength else Set(withLength, TRANSFER_ENCODING, codings[0])
  }

  /** What becomes of the values of a framing field: the second one is overwritten by the first. */
  function Restored(values: seq<Bytes>): seq<Bytes> { if |values| < 2 then values else [values[0]] + values[2..] }

  lemma HeadFieldsValues(hs: seq<Header>, name: Bytes)
    ensures Values(HeadFields(hs), name) == if IsFramingName(name) then Restored(Values(hs, name)) else Values(hs, name)
  {
    hide IEquals, Values, Remove, Set;
    var noLength := Remove(hs, CONTENT_LENGTH);
    var bare := Remove(noLength, TRANSFER_ENCODING);
    var lengths, codings := Values(hs, CONTENT_LENGTH), Values(hs, TRANSFER_ENCODING);
    var withLength := if lengths == [] then bare else Set(bare, CONTENT_LENGTH, lengths[0]);
    ValuesAfterRemove(hs, CONTENT_LENGTH, name);
    ValuesAfterRemove(noLength, TRANSFER_ENCODING, name);
    if lengths != [] {
      ValuesAfterSet(bare, CONTENT_LENGTH, lengths[0], name);
    }
    if codings != [] {
      ValuesAfterSet(withLength, TRANSFER_ENCODING, codings[0], name);
    }
    NamesDiffer();
    Symmetric(CONTENT_LENGTH, name);
    Symmetric(TRANSFER_ENCODING, name);
    NamesAgree(CONTENT_LENGTH, TRANSFER_ENCODING, name);
    NamesAgree(CONTENT_LENGTH, name, TRANSFER_ENCODING);
    SameName(hs, CONTENT_LENGTH, name);
    SameName(hs, TRANSFER_ENCODING, name);
  }

  /**
   A HEAD answer has the same values under every name, in the same order, as the response it stands for, exactly
   when no framing field was there twice.
   */
  lemma HeadKeepsFields(hs: seq<Header>)
    ensures (forall name :: Values(HeadFields(hs), name) == Values(hs, name)) <==>
            |Values(hs, CONTENT_LENGTH)| <= 1 && |Values(hs, TRANSFER_ENCODING)| <= 1
  {
    hide IEquals, Values, HeadFields;
    NamesDiffer();
    var lengths, codings := Values(hs, CONTENT_LENGTH), Values(hs, TRANSFER_ENCODING);
    forall name ensures |lengths| <= 1 && |codings| <= 1 ==> Values(HeadFields(hs), name) == Values(hs, name) {
      HeadFieldsValues(hs, name);
      Symmetric(CONTENT_LENGTH, name);
      Symmetric(TRANSFER_ENCODING, name);
      SameName(hs, CONTENT_LENGTH, name);
      SameName(hs, TRANSFER_ENCODING, name);
    }
    HeadFieldsValues(hs, CONTENT_LENGTH);
    HeadFieldsValues(hs, TRANSFER_ENCODING);
    assert |lengths| > 1 ==> |Restored(lengths)| < |lengths|;
    assert |codings| > 1 ==> |Restored(codings)| < |codings|;
  }

  lemma {:induction false} SameName(hs: seq<Header>, a: Bytes, b: Bytes)
    ensures IEquals(a, b) ==> Values(hs, a) == Values(hs, b)
  {
    hide IEquals;
    if hs != [] && IEquals(a, b) {
      SameName(hs[1..], a, b);
      NamesAgree(hs[0].name, a, b);
    }
  }

  lemma RemoveLength(hs: seq<Header>, name: Bytes)
    ensures |Render(Remove(hs, name))| ==
            |Render(hs)| - (if Has(hs, name) then |name| + |hs[Find(hs, name)].value| + 4 else 0)
    ensures WellFormed(hs) ==> WellFormed(Remove(hs, name))
  {
    hide Render, IEquals, IsToken, IsFieldValue;
    var i := Find(hs, name);
    if i < |hs| {
      SameLength(hs[i].name, name);
      RenderSplit(hs, i);
      RenderDelete(hs, i);
    }
  }

  lemma SameLength(a: Bytes, b: Bytes)
    requires IEquals(a, b)
    ensures |a| == |b|
  {
  }

  /** Setting a field takes no more than its line, and leaves no room unused that it asked for. */
  lemma SetLength(hs: seq<Header>, name: Bytes, value: Bytes)
    ensures |Render(Set(hs, name, value))| <= |Render(hs)| + |name| + |value| + 4
    ensures Growth(hs, name, value) <= |name| + |value| + 6
  {
    hide Render, IEquals;
    var i := Find(hs, name);
    if i < |hs| {
      var after := hs[i].(value := value);
      RenderSplit(hs, i);
      RenderSplit(hs[i := after], i);
      assert hs[i := after][..i] == hs[..i] && hs[i := after][i + 1..] == hs[i + 1..];
      LineLength(hs[i]);
      LineLength(after);
    } else {
      RenderAppend(hs, Header(name, value));
    }
  }

  lemma LineLength(h: Header)
    ensures |Line(h)| == |h.name| + |h.value| + 4
  {
  }

  lemma FirstValue(hs: seq<Header>, name: Bytes)
    ensures Has(hs, name) <==> Values(hs, name) != []
    ensures Has(hs, name) ==> Values(hs, name)[0] == hs[Find(hs, name)].value
    ensures Has(hs, name) && WellFormed(hs) ==> IsFieldValue(Values(hs, name)[0])
  {
    hide IEquals, IsToken, IsFieldValue;
    NamesAgree(name, name, name);
    Reflexive(name);
    ValuesFromFirst(hs, name, name);
  }

  lemma Symmetric(a: Bytes, b: Bytes)
    ensures IEquals(a, b) <==> IEquals(b, a)
  {
  }

  lemma Reflexive(a: Bytes)
    ensures IEquals(a, a)
  {
  }

  /** The space that the framing fields gave up is enough to put them back. */
  lemma HeadFits(hs: seq<Header>)
    requires WellFormed(hs)
    ensures var bare := Remove(Remove(hs, CONTENT_LENGTH), TRANSFER_ENCODING);
            var lengths, codings := Values(hs, CONTENT_LENGTH), Values(hs, TRANSFER_ENCODING);
            var withLength := if lengths == [] then bare else Set(bare, CONTENT_LENGTH, lengths[0]);
            && (lengths != [] ==> |Render(bare)| + Growth(bare, CONTENT_LENGTH, lengths[0]) <= |Render(hs)| + 2)
            && (codings != [] ==> |Render(withLength)| + Growth(withLength, TRANSFER_ENCODING, codings[0]) <= |Render(hs)| + 2)
  {
    hide IEquals, Values, Render, Remove, Set, Find, WellFormed, Growth;
    NamesDiffer();
    var noLength := Remove(hs, CONTENT_LENGTH);
    var bare := Remove(noLength, TRANSFER_ENCODING);
    FirstValue(hs, CONTENT_LENGTH);
    FirstValue(noLength, TRANSFER_ENCODING);
    RemoveLength(hs, CONTENT_LENGTH);
    RemoveLength(noLength, TRANSFER_ENCODING);
    ValuesAfterRemove(hs, CONTENT_LENGTH, TRANSFER_ENCODING);
    var lengths, codings := Values(hs, CONTENT_LENGTH), Values(hs, TRANSFER_ENCODING);
    var withLength := bare;
    if lengths != [] {
      SetLength(bare, CONTENT_LENGTH, lengths[0]);
      withLength := Set(bare, CONTENT_LENGTH, lengths[0]);
    }
    if codings != [] {
      SetLength(withLength, TRANSFER_ENCODING, codings[0]);
    }
  }

  /**
   The `send` step.  Only the Connection field can run out of space.  A HEAD answer loses its body and
   keeps its fields.
   */
  method Send(res: Response, wantsClose: bool, isHead: bool) returns (outcome: Outcome)
    requires res.Valid()
    modifies res, res.memory
    ensures res.Valid()
    ensures var closed := if wantsClose then Set(old(res.headers), CONNECTION, "close") else old(res.headers);
            && outcome == (if wantsClose && old(res.SpaceLeft()) < Growth(old(res.headers), CONNECTION, "close") then NoSpace else Done)
            && (outcome.Done? ==> res.headers == if isHead then HeadFields(closed) else closed)
    ensures outcome.Done? && isHead ==> res.bdyLen == 0 && res.writer.None?
    ensures outcome.Done? && !isHead ==> res.bdyLen == old(res.bdyLen) && res.writer == old(res.writer) && res.Body() == old(res.Body())
  {
    hide IEquals, Values, Render, Remove, Set, Find, Laid, Placed, WellFormed;
    outcome := Done;
    if wantsClose {
      CloseIsValid();
      outcome := res.SetHeader(CONNECTION, "close");
      if !outcome.Done? {
        return;
      }
    }
    if isHead {
      StripForHead(res);
    }
  }

  lemma CloseIsValid()
    ensures IsToken(CONNECTION) && IsFieldValue("close")
    ensures IsToken(CONTENT_LENGTH) && IsToken(TRANSFER_ENCODING)
  {
  }

  method StripForHead(res: Response)
    requires res.Valid()
    modifies res, res.memory
    ensures res.Valid() && res.bdyLen == 0 && res.writer.None?
    ensures res.headers == HeadFields(old(res.headers))
  {
    hide IEquals, Values, Render, Remove, Set, Find, Placed, IsFieldValue, IsToken;
    ghost var hs := res.headers;
    FirstValue(hs, CONTENT_LENGTH);
    FirstValue(hs, TRANSFER_ENCODING);
    HeadFits(hs);
    CloseIsValid();
    var length := res.GetHeader(CONTENT_LENGTH);
    var coding := res.GetHeader(TRANSFER_ENCODING);
    EmptyBlock(hs);
    res.ClearBody();
    if length.Some? {
      var done := res.SetHeader(CONTENT_LENGTH, length.value);
      assert done.Done?;
    }
    if coding.Some? {
      var done := res.SetHeader(TRANSFER_ENCODING, coding.value);
      assert done.Done?;
    }
  }

  lemma EmptyBlock(hs: seq<Header>)
    ensures |Render(hs)| == 0 ==> hs == []
    ensures hs == [] ==> Values(hs, CONTENT_LENGTH) == [] && Values(hs, TRANSFER_ENCODING) == []
  {
  }

  // ---- requests for which no handler is found

  const ALLOW: Bytes := "Allow"

  /** What became of a request: a route has it, or the response says why not. */
  /** A status line that leaves room for the announcement of an empty body. */
  predicate HasRoom(line: Bytes) { |line| + RoomFor(CONTENT_LENGTH, Decimal(0)) <= BODY_BEGIN }

  datatype Dispatched = Handled(sends: bool) | NotFound404 | MethodNotAllowed405 | Thrown(why: Outcome)

  /**
   What the server does with a request in origin or absolute form: a 404, or a 405 for which the router has set the
   Allow field.  That field is gone when the 405 is sent, because the status helper starts the response anew.
   */
  method Dispatch(router: Router.Router, res: Response, name: Bytes, path: string, line404: Bytes, line405: Bytes,
                  poolRuns: bool)
    returns (done: Dispatched, ghost allowed: seq<Bytes>)
    requires router.Valid() && res.Valid()
    modifies res, res.memory
    ensures res.Valid()
    ensures done.Handled? <==> router.Choice(name, path).Some?
    ensures done.Handled? ==> done.sends == !router.GoesUnanswered(name, path, poolRuns) && unchanged(res)
    ensures !done.Handled? && router.NothingAllowed(name, path) ==>
              && res.statusCode == 404 && done == if HasRoom(line404) then NotFound404 else Thrown(NoSpace)
    ensures !done.Handled? && !router.NothingAllowed(name, path) ==>
              && Router.HasNoDuplicates(allowed) && (forall m :: m in allowed <==> router.IsAllowed(name, m, path))
              && var allow := Router.AllowText(allowed);
                 done == if !IsFieldValue(allow) then Thrown(InvalidValue)
                      else if old(res.SpaceLeft()) < Growth(old(res.headers), ALLOW, allow) then Thrown(NoSpace)
                      else if !HasRoom(line405) then Thrown(NoSpace)
                      else MethodNotAllowed405
    ensures done.MethodNotAllowed405? ==> res.statusCode == 405 && !Has(res.headers, ALLOW)
  {
    hide Render, Remove, Set, Laid, Placed, WellFormed, IsFieldValue, IsToken, Decimal, Router.AllowText;
    allowed := [];
    var result := router.Match(name, path, poolRuns);
    match result {
      case Matched(_, _, _, sends) => return Handled(sends), allowed;
      case NotFound =>
        var outcome := res.Status(line404, 404);
        return if outcome.Done? then NotFound404 else Thrown(outcome), allowed;
      case MethodNotAllowed(names, allow) =>
        allowed := names;
        AllowIsToken();
        var put := res.SetHeader(ALLOW, allow);
        if !put.Done? {
          return Thrown(put), allowed;
        }
        var outcome := res.Status(line405, 405);
        AllowIsGone(res.headers);
        return if outcome.Done? then MethodNotAllowed405 else Thrown(outcome), allowed;
    }
  }

  lemma AllowIsToken()
    ensures IsToken(ALLOW)
  {
  }

  lemma AllowIsGone(hs: seq<Header>)
    requires hs == [] || (|hs| == 1 && |hs[0].name| == 14)
    ensures !Has(hs, ALLOW)
  {
    hide IEquals;
    if Has(hs, ALLOW) {
      SameLength(hs[0].name, ALLOW);
    }
  }
}
