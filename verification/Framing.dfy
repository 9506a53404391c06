/**
 Which framing fields a response carries, over every history of edits, and what a HEAD answer keeps.
 */
module Framing {
  import opened Octets
  import opened HttpText
  import opened HeaderList
  import opened R = Response

  /** The parts of a response that framing is about. */
  datatype Message = Message(headers: seq<Header>, body: Bytes, writer: Option<BodyWriter>, code: int)

  /**
   What a history of calls may consist of.  `fits` says whether the field it writes last found room; if
   not, the call threw after it had dropped the old body.
   */
  datatype Edit =
    | Status(code: int, fits: bool)
    | SetBody(bytes: Bytes, stored: bool, fits: bool)
    | SetWriter(w: BodyWriter, fits: bool)
    | ClearBody
    | AddField(name: Bytes, value: Bytes)
    | SetField(name: Bytes, value: Bytes)
    | RemoveField(name: Bytes)

  predicate IsFramingName(name: Bytes) { IEquals(name, CONTENT_LENGTH) || IEquals(name, TRANSFER_ENCODING) }

  /** Framing fields are left to the status helpers and the body calls. */
  predicate Disciplined(e: Edit) {
    (e.AddField? || e.SetField? || e.RemoveField?) ==> !IsFramingName(e.name)
  }

  function Unframed(hs: seq<Header>): seq<Header> { Remove(Remove(hs, TRANSFER_ENCODING), CONTENT_LENGTH) }

  function Apply(m: Message, e: Edit): Message {
    match e
    case Status(code, fits) =>
      Message(if fits && MayCarryLength(code) then [Header(CONTENT_LENGTH, Decimal(0))] else [], [], None, code)
    case SetBody(bytes, stored, fits) =>
      var small := |bytes| <= MEMORY_SIZE - BODY_BEGIN;
      m.(headers := if fits && (small || stored) then Set(Unframed(m.headers), CONTENT_LENGTH, Decimal(|bytes|))
                    else Unframed(m.headers),
         body := if small then bytes else [],
         writer := if small || !stored then None else Some(BodyWriter(false, bytes)))
    case SetWriter(w, fits) =>
      m.(headers := if !fits then Unframed(m.headers)
                    else if w.chunked then Set(Unframed(m.headers), TRANSFER_ENCODING, "chunked")
                    else Set(Unframed(m.headers), CONTENT_LENGTH, Decimal(|w.wire|)),
         body := [],
         writer := Some(w))
    case ClearBody =>
      m.(headers := Remove(Remove(m.headers, CONTENT_LENGTH), TRANSFER_ENCODING), body := [], writer := None)
    case AddField(name, value) => m.(headers := m.headers + [Header(name, value)])
    case SetField(name, value) => m.(headers := Set(m.headers, name, value))
    case RemoveField(name) => m.(headers := Remove(m.headers, name))
  }

  function Run(m: Message, edits: seq<Edit>): Message {
    if edits == [] then m else Apply(Run(m, edits[..|edits| - 1]), edits[|edits| - 1])
  }

  function Lengths(m: Message): seq<Bytes> { Values(m.headers, CONTENT_LENGTH) }

  function Codings(m: Message): seq<Bytes> { Values(m.headers, TRANSFER_ENCODING) }

  /** At most one framing field, and it tells the truth about the body. */
  predicate Framed(m: Message) {
    match m.writer
    case None => Codings(m) == [] && (Lengths(m) == [] || Lengths(m) == [Decimal(|m.body|)])
    case Some(w) =>
      && m.body == []
      && (if w.chunked then Lengths(m) == [] && (Codings(m) == [] || Codings(m) == ["chunked"])
          else Codings(m) == [] && (Lengths(m) == [] || Lengths(m) == [Decimal(|w.wire|)]))
  }

  lemma UnframedValues(hs: seq<Header>)
    requires |Values(hs, CONTENT_LENGTH)| + |Values(hs, TRANSFER_ENCODING)| <= 1
    ensures Values(Unframed(hs), CONTENT_LENGTH) == Values(Unframed(hs), TRANSFER_ENCODING) == []
    ensures var cleared := Remove(Remove(hs, CONTENT_LENGTH), TRANSFER_ENCODING);
            Values(cleared, CONTENT_LENGTH) == Values(cleared, TRANSFER_ENCODING) == []
  {
    hide IEquals, Values, Remove;
    NamesDiffer();
    var cl, te := Remove(hs, CONTENT_LENGTH), Remove(hs, TRANSFER_ENCODING);
    ValuesAfterRemove(hs, CONTENT_LENGTH, CONTENT_LENGTH);
    ValuesAfterRemove(hs, CONTENT_LENGTH, TRANSFER_ENCODING);
    ValuesAfterRemove(hs, TRANSFER_ENCODING, CONTENT_LENGTH);
    ValuesAfterRemove(hs, TRANSFER_ENCODING, TRANSFER_ENCODING);
    ValuesAfterRemove(cl, TRANSFER_ENCODING, CONTENT_LENGTH);
    ValuesAfterRemove(cl, TRANSFER_ENCODING, TRANSFER_ENCODING);
    ValuesAfterRemove(te, CONTENT_LENGTH, CONTENT_LENGTH);
    ValuesAfterRemove(te, CONTENT_LENGTH, TRANSFER_ENCODING);
  }

  lemma SetOnUnframed(hs: seq<Header>, name: Bytes, value: Bytes)
    requires Values(hs, CONTENT_LENGTH) == Values(hs, TRANSFER_ENCODING) == []
    requires name == CONTENT_LENGTH || name == TRANSFER_ENCODING
    ensures Values(Set(hs, name, value), CONTENT_LENGTH) == if name == CONTENT_LENGTH then [value] else []
    ensures Values(Set(hs, name, value), TRANSFER_ENCODING) == if name == TRANSFER_ENCODING then [value] else []
  {
    hide IEquals, Values, Set;
    NamesDiffer();
    ValuesAfterSet(hs, name, value, CONTENT_LENGTH);
    ValuesAfterSet(hs, name, value, TRANSFER_ENCODING);
  }

  /**
   The Allow field that a refused method is answered with does not survive the status helper that follows it.
   */
  lemma AllowIsLost(m: Message, allow: Bytes, fits: bool)
    ensures !Has(Apply(Apply(m, SetField("Allow", allow)), Status(405, fits)).headers, "Allow")
  {
    var before := Apply(m, SetField("Allow", allow));
    var headers := Apply(before, Status(405, fits)).headers;
    assert |headers| <= 1 && (headers != [] ==> |headers[0].name| == 14);
  }

  lemma StepFramed(m: Message, e: Edit)
    requires Disciplined(e) && (e.Status? || Framed(m))
    ensures Framed(Apply(m, e))
  {
    hide IEquals, Values, Set, Remove, Decimal, Unframed;
    match e
    case Status(code, _) =>
      NamesDiffer();
      NoValuesBefore([], CONTENT_LENGTH);
      NoValuesBefore([], TRANSFER_ENCODING);
      var one := [Header(CONTENT_LENGTH, Decimal(0))];
      ValuesAround(one, 0, CONTENT_LENGTH);
      ValuesAround(one, 0, TRANSFER_ENCODING);
      assert one[..0] == [] && one[1..] == [];
    case SetBody(bytes, _, _) =>
      UnframedValues(m.headers);
      SetOnUnframed(Unframed(m.headers), CONTENT_LENGTH, Decimal(|bytes|));
    case SetWriter(w, _) =>
      UnframedValues(m.headers);
      SetOnUnframed(Unframed(m.headers), CONTENT_LENGTH, Decimal(|w.wire|));
      SetOnUnframed(Unframed(m.headers), TRANSFER_ENCODING, "chunked");
    case ClearBody => UnframedValues(m.headers);
    case AddField(name, value) =>
      var one := [Header(name, value)];
      ValuesConcat(m.headers, one, CONTENT_LENGTH);
      ValuesConcat(m.headers, one, TRANSFER_ENCODING);
      NoValuesBefore(one, CONTENT_LENGTH);
      NoValuesBefore(one, TRANSFER_ENCODING);
    case SetField(name, value) =>
      ValuesAfterSet(m.headers, name, value, CONTENT_LENGTH);
      ValuesAfterSet(m.headers, name, value, TRANSFER_ENCODING);
    case RemoveField(name) =>
      ValuesAfterRemove(m.headers, name, CONTENT_LENGTH);
      ValuesAfterRemove(m.headers, name, TRANSFER_ENCODING);
  }

  /** Every history that starts with a status helper and leaves framing to the helpers stays framed. */
  lemma {:induction false} HistoryFramed(m: Message, edits: seq<Edit>)
    requires edits != [] && edits[0].Status? && forall i | 0 <= i < |edits| :: Disciplined(edits[i])
    ensures Framed(Run(m, edits))
  {
    var most := edits[..|edits| - 1];
    if most != [] {
      HistoryFramed(m, most);
    }
    StepFramed(Run(m, most), edits[|edits| - 1]);
  }

  /** The bytes behind the head: the body in memory, then what the writer has. */
  function SentBody(m: Message): Bytes { m.body + if m.writer.Some? then m.writer.value.wire else [] }

  /**
   What goes on the wire after such a history: at most one of the two framing fields; a length that
   reads back as the number of body bytes sent, from memory or streamed, when the status allows a body; neither
   field with 1xx and 204, and no transfer coding with 304.  `date` is the field that serialization may add.
   */
  lemma SerializedFraming(m: Message, edits: seq<Edit>, dated: bool, date: Bytes)
    requires edits != [] && edits[0].Status? && forall i | 0 <= i < |edits| :: Disciplined(edits[i])
    ensures var last := Run(m, edits);
            var fields := SentFields(if dated then last.headers else last.headers + [Header(DATE, date)], last.code);
            var lengths, codings := Values(fields, CONTENT_LENGTH), Values(fields, TRANSFER_ENCODING);
            && |lengths| + |codings| <= 1
            && (100 <= last.code < 200 || last.code == 204 ==> lengths == codings == [])
            && (last.code == 304 ==> codings == [])
            && (last.code >= 200 && last.code !in {204, 304} ==>
                  && (lengths != [] ==> IsDecimal(lengths[0]) && ParseDecimal(lengths[0]) == |SentBody(last)|)
                  && (codings != [] ==> last.writer.Some? && last.writer.value.chunked))
  {
    hide IEquals, Values, Remove, Decimal, Run;
    HistoryFramed(m, edits);
    var last := Run(m, edits);
    NamesDiffer();
    StepFramed(last, AddField(DATE, date));
    var dateless := if dated then last else Apply(last, AddField(DATE, date));
    UnframedValues(dateless.headers);
    ValuesAfterRemove(dateless.headers, TRANSFER_ENCODING, CONTENT_LENGTH);
    ValuesAfterRemove(dateless.headers, TRANSFER_ENCODING, TRANSFER_ENCODING);
    DecimalRoundTrip(|SentBody(last)|);
    DecimalIsDecimal(|SentBody(last)|);
    assert last.writer.Some? ==> SentBody(last) == last.writer.value.wire;
    assert last.writer.None? ==> SentBody(last) == last.body;
  }

  predicate IsDecimal(s: Bytes) { forall i | 0 <= i < |s| :: IsDigit(s[i]) }

  lemma DecimalIsDecimal(n: nat)
    ensures IsDecimal(Decimal(n))
  {
  }

  // ---- the response object follows the history

  ghost function View(res: Response): Message
    requires res.Valid()
    reads res, res.memory
  {
    Message(res.headers, res.Body(), res.writer, res.statusCode)
  }

  /**
   Performs one edit on the object.  `history` is what the edit came to: itself with the flag that says
   whether its field fitted, or nothing if it was refused.
   */
  method Perform(res: Response, e: Edit, line: Bytes) returns (ghost history: seq<Edit>, outcome: Outcome)
    requires res.Valid()
    modifies res, res.memory
    ensures res.Valid() && View(res) == Run(old(View(res)), history)
    ensures Disciplined(e) ==> forall i | 0 <= i < |history| :: Disciplined(history[i])
    ensures e.Status? ==> history != [] && history[0].Status?
    ensures outcome.Done? ==> history != []
  {
    hide Values, Render, Remove, Set, Find, Laid, Placed, WellFormed, Decimal, IEquals, IsToken, IsFieldValue;
    match e {
      case Status(code, _) =>
        outcome := res.Status(line, code);
        history := [Status(code, outcome.Done?)];
      case SetBody(bytes, stored, _) =>
        outcome := res.SetBody(bytes, stored);
        history := [SetBody(bytes, stored, outcome.Done?)];
      case SetWriter(w, _) =>
        outcome := res.SetBodyWriter(w);
        history := [SetWriter(w, outcome.Done?)];
      case ClearBody =>
        res.ClearBody();
        outcome := Done;
        history := [ClearBody];
      case AddField(name, value) =>
        outcome := res.AddHeader(name, value);
        history := if outcome.Done? then [e] else [];
      case SetField(name, value) =>
        outcome := res.SetHeader(name, value);
        history := if outcome.Done? then [e] else [];
      case RemoveField(name) =>
        res.RemoveHeader(name);
        outcome := Done;
        history := [e];
    }
    assert history != [] ==> history[..|history| - 1] == [];
  }
}
