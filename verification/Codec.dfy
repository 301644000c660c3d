/** The wire forms of Person and PersonsReply: a simple forward encoder and decoder,
    and what holds between them. */
module Codec {
  import opened Bits
  import opened Options
  import opened Varint
  import opened Skip
  import opened Words

  datatype PersonData = PersonData(name: Bytes, sex: Bytes, age: Int64)

  const EMPTY := PersonData([], [], 0)

  // ---- encoding -------------------------------------------------------------------------

  ghost function LengthField(num: nat, bs: Bytes): Bytes
  {
    Tag(num, 2) + Bytes128(|bs|) + bs
  }

  /** A string field is left out when it is empty, the age when it is zero. */
  ghost function StringField(num: nat, bs: Bytes): Bytes
  {
    if bs == [] then [] else LengthField(num, bs)
  }

  ghost function AgeField(age: Int64): Bytes
  {
    if age == 0 then [] else Tag(3, 0) + Bytes128(ToWord(age))
  }

  ghost function EncodePerson(p: PersonData): Bytes
  {
    StringField(1, p.name) + StringField(2, p.sex) + AgeField(p.age)
  }

  ghost function EncodeReply(ps: seq<PersonData>): Bytes
  {
    if ps == [] then [] else LengthField(1, EncodePerson(ps[0])) + EncodeReply(ps[1..])
  }

  // ---- decoding --------------------------------------------------------------------------

  /** What one turn of an Unmarshal loop does: go on, or give up with the message as
      filled so far. */
  datatype Step<+M> = Next(msg: M, at: nat) | Stop(msg: M, error: Error)

  datatype Outcome<+M> = Outcome(msg: M, err: Option<Error>)

  /** The same message, and failure in the one exactly when in the other. */
  ghost predicate Agree<M>(a: Outcome<M>, b: Outcome<M>)
  {
    a.msg == b.msg && (a.err.None? <==> b.err.None?)
  }

  datatype FieldHead = FieldHead(num: int, wireType: nat, next: nat)

  /** Go's int32(wire >> 3). */
  function FieldNumber(wire: Word): (n: int)
    ensures -TWO31 <= n < TWO31 && (n == wire / 8 % TWO32 || n == wire / 8 % TWO32 - TWO32)
  {
    var n := (wire / 8) % TWO32;
    if n < TWO31 then n else n - TWO32
  }

  ghost function HeadAt(d: Bytes, i: nat): (r: Result<FieldHead>)
    requires i <= |d|
    ensures r.Ok? ==> i < r.value.next <= |d| && r.value.num > 0
  {
    var v := VarintAt(d, i);
    if v.err.Some? then Err(v.err.value)
    else if v.value % 8 == 4 then Err(EndGroupForNonGroup)
    else if FieldNumber(v.value) <= 0 then Err(IllegalTag)
    else Ok(FieldHead(FieldNumber(v.value), v.value % 8, v.next))
  }

  datatype Span = Span(from: nat, to: nat)

  /** The bytes of a length-delimited payload whose length begins at `i`. */
  ghost function SpanAt(d: Bytes, i: nat): (r: Result<Span>)
    requires i <= |d| <= MAX_INT
    ensures r.Ok? ==> i < r.value.from <= r.value.to <= |d|
  {
    var v := VarintAt(d, i);
    if v.err.Some? then Err(v.err.value)
    else if ToInt64(v.value) < 0 then Err(InvalidLength)
    else
      var post := AddInt(v.next, ToInt64(v.value));
      if post < 0 then Err(InvalidLength)
      else if post > |d| then Err(UnexpectedEOF)
      else Ok(Span(v.next, post))
  }

  /** The end of an unknown field that begins at `i`. */
  ghost function UnknownAt(d: Bytes, i: nat): (r: Result<nat>)
    requires i <= |d| <= MAX_INT
    ensures r.Ok? ==> i < r.value <= |d|
  {
    match ElementEnd(d[i..], 0)
    case Err(e) => Err(e)
    case Ok(n) =>
      var end := AddInt(i, n);
      if end < 0 then Err(InvalidLength)
      else if end > |d| then Err(UnexpectedEOF)
      else Ok(end)
  }

  ghost function Skipped<M>(d: Bytes, i: nat, m: M): (s: Step<M>)
    requires i <= |d| <= MAX_INT
    ensures s.Next? ==> i < s.at <= |d|
  {
    match UnknownAt(d, i)
    case Err(e) => Stop(m, e)
    case Ok(j) => Next(m, j)
  }

  ghost function StringStep(d: Bytes, h: FieldHead, m: PersonData): (s: Step<PersonData>)
    requires h.next <= |d| <= MAX_INT
    ensures s.Next? ==> h.next < s.at <= |d|
  {
    if h.wireType != 2 then Stop(m, WrongWireType) else
    match SpanAt(d, h.next)
    case Err(e) => Stop(m, e)
    case Ok(s) =>
      var bs := d[s.from..s.to];
      Next(if h.num == 1 then m.(name := bs) else m.(sex := bs), s.to)
  }

  /** The age is set to zero before its varint is read, and what was gathered stays
      when the reading fails. */
  ghost function AgeStep(d: Bytes, h: FieldHead, m: PersonData): (s: Step<PersonData>)
    requires h.next <= |d| <= MAX_INT
    ensures s.Next? ==> h.next < s.at <= |d|
  {
    if h.wireType != 0 then Stop(m, WrongWireType) else
    var v := VarintAt(d, h.next);
    var m' := m.(age := ToInt64(v.value));
    if v.err.Some? then Stop(m', v.err.value) else Next(m', v.next)
  }

  ghost function PersonStep(d: Bytes, i: nat, m: PersonData): (s: Step<PersonData>)
    requires i <= |d| <= MAX_INT
    ensures s.Next? ==> i < s.at <= |d|
  {
    match HeadAt(d, i)
    case Err(e) => Stop(m, e)
    case Ok(h) =>
      if h.num == 1 || h.num == 2 then StringStep(d, h, m)
      else if h.num == 3 then AgeStep(d, h, m)
      else Skipped(d, i, m)
  }

  ghost function DecodePersonFrom(d: Bytes, i: nat, m: PersonData): Outcome<PersonData>
    requires i <= |d| <= MAX_INT
    decreases |d| - i
  {
    if i == |d| then Outcome(m, None) else
    match PersonStep(d, i, m)
    case Stop(m', e) => Outcome(m', Some(e))
    case Next(m', j) => DecodePersonFrom(d, j, m')
  }

  /** Unmarshal of a Person: the bytes are decoded onto what the message held before. */
  ghost function DecodePerson(d: Bytes, m: PersonData): Outcome<PersonData>
    requires |d| <= MAX_INT
  {
    DecodePersonFrom(d, 0, m)
  }

  /** A nested person is appended before its own bytes are decoded, so it stays, as
      far as it was filled, when they are bad. */
  ghost function NestedStep(d: Bytes, h: FieldHead, ps: seq<PersonData>): (s: Step<seq<PersonData>>)
    requires h.next <= |d| <= MAX_INT
    ensures s.Next? ==> h.next < s.at <= |d|
  {
    if h.wireType != 2 then Stop(ps, WrongWireType) else
    match SpanAt(d, h.next)
    case Err(e) => Stop(ps, e)
    case Ok(s) =>
      var p := DecodePerson(d[s.from..s.to], EMPTY);
      if p.err.Some? then Stop(ps + [p.msg], p.err.value) else Next(ps + [p.msg], s.to)
  }

  ghost function ReplyStep(d: Bytes, i: nat, ps: seq<PersonData>): (s: Step<seq<PersonData>>)
    requires i <= |d| <= MAX_INT
    ensures s.Next? ==> i < s.at <= |d|
  {
    match HeadAt(d, i)
    case Err(e) => Stop(ps, e)
    case Ok(h) => if h.num == 1 then NestedStep(d, h, ps) else Skipped(d, i, ps)
  }

  ghost function DecodeReplyFrom(d: Bytes, i: nat, ps: seq<PersonData>): Outcome<seq<PersonData>>
    requires i <= |d| <= MAX_INT
    decreases |d| - i
  {
    if i == |d| then Outcome(ps, None) else
    match ReplyStep(d, i, ps)
    case Stop(ps', e) => Outcome(ps', Some(e))
    case Next(ps', j) => DecodeReplyFrom(d, j, ps')
  }

  ghost function DecodeReply(d: Bytes, ps: seq<PersonData>): Outcome<seq<PersonData>>
    requires |d| <= MAX_INT
  {
    DecodeReplyFrom(d, 0, ps)
  }

  // ---- reading what was written --------------------------------------------------------------

  lemma HeadRead(d: Bytes, i: nat, num: nat, wireType: nat)
    requires |d| <= MAX_INT && At(d, i, Tag(num, wireType))
    requires 1 <= num <= MAX_FIELD && wireType < 8 && wireType != 4
    ensures HeadAt(d, i) == Ok(FieldHead(num, wireType, i + |Tag(num, wireType)|))
  {
    hide At, VarintAt, Bytes128, TokenAt;
    TagRead(d, i, num, wireType);
    var w := num * 8 + wireType;
    assert w / 8 == num && w % 8 == wireType;
  }

  lemma SpanRead(d: Bytes, i: nat, bs: Bytes)
    requires |d| <= MAX_INT && At(d, i, Bytes128(|bs|)) && At(d, i + |Bytes128(|bs|)|, bs)
    ensures var a := i + |Bytes128(|bs|)|; SpanAt(d, i) == Ok(Span(a, a + |bs|))
  {
    hide VarintAt, Bytes128, At;
    VarintRoundTrip(d, i, |bs|);
  }

  lemma LengthFieldRead(d: Bytes, i: nat, num: nat, bs: Bytes)
    requires |d| <= MAX_INT && 1 <= num <= MAX_FIELD && At(d, i, LengthField(num, bs))
    ensures i < i + |LengthField(num, bs)| <= |d|
    ensures HeadAt(d, i) == Ok(FieldHead(num, 2, i + |Tag(num, 2)|))
    ensures SpanAt(d, i + |Tag(num, 2)|)
         == Ok(Span(i + |LengthField(num, bs)| - |bs|, i + |LengthField(num, bs)|))
    ensures d[i + |LengthField(num, bs)| - |bs|..i + |LengthField(num, bs)|] == bs
  {
    hide At, Bytes128, HeadAt, SpanAt;
    AtSplit(d, i, Tag(num, 2) + Bytes128(|bs|), bs);
    AtSplit(d, i, Tag(num, 2), Bytes128(|bs|));
    HeadRead(d, i, num, 2);
    SpanRead(d, i + |Tag(num, 2)|, bs);
    AtSlice(d, i + |LengthField(num, bs)| - |bs|, bs);
  }

  lemma AtSlice(d: Bytes, i: nat, x: Bytes)
    requires At(d, i, x)
    ensures d[i..i + |x|] == x
  {
  }

  /** Field-wise merge: the later field wins unless it holds the default. */
  function Merge(m: PersonData, p: PersonData): PersonData
  {
    PersonData(
      if p.name == [] then m.name else p.name,
      if p.sex == [] then m.sex else p.sex,
      if p.age == 0 then m.age else p.age)
  }

  lemma StringDecodes(d: Bytes, i: nat, m: PersonData, num: nat, bs: Bytes)
    requires |d| <= MAX_INT && (num == 1 || num == 2) && At(d, i, StringField(num, bs))
    ensures i <= i + |StringField(num, bs)| <= |d|
    ensures DecodePersonFrom(d, i, m)
         == DecodePersonFrom(d, i + |StringField(num, bs)|,
                             Merge(m, if num == 1 then PersonData(bs, [], 0) else PersonData([], bs, 0)))
  {
    hide HeadAt, SpanAt, Bytes128, At, LengthField;
    if bs != [] {
      LengthFieldRead(d, i, num, bs);
    }
  }

  lemma AgeDecodes(d: Bytes, i: nat, m: PersonData, age: Int64)
    requires |d| <= MAX_INT && At(d, i, AgeField(age))
    ensures i <= i + |AgeField(age)| <= |d|
    ensures DecodePersonFrom(d, i, m)
         == DecodePersonFrom(d, i + |AgeField(age)|, Merge(m, PersonData([], [], age)))
  {
    hide HeadAt, VarintAt, Bytes128, At;
    if age != 0 {
      AtSplit(d, i, Tag(3, 0), Bytes128(ToWord(age)));
      HeadRead(d, i, 3, 0);
      VarintRoundTrip(d, i + |Tag(3, 0)|, ToWord(age));
    }
  }

  /** Wherever an encoded person stands, decoding over it merges it into the message. */
  lemma EncodedPersonMerges(d: Bytes, i: nat, m: PersonData, p: PersonData)
    requires |d| <= MAX_INT && At(d, i, EncodePerson(p))
    ensures DecodePersonFrom(d, i, m)
         == DecodePersonFrom(d, i + |EncodePerson(p)|, Merge(m, p))
  {
    hide At, StringField, AgeField, DecodePersonFrom;
    var a, b, c := StringField(1, p.name), StringField(2, p.sex), AgeField(p.age);
    AtSplit(d, i, a + b, c);
    AtSplit(d, i, a, b);
    StringDecodes(d, i, m, 1, p.name);
    var m1 := Merge(m, PersonData(p.name, [], 0));
    StringDecodes(d, i + |a|, m1, 2, p.sex);
    AgeDecodes(d, i + |a| + |b|, Merge(m1, PersonData([], p.sex, 0)), p.age);
  }

  /** The round trip of a person: any names, any age, negative ones included. */
  lemma PersonRoundTrip(p: PersonData)
    requires |EncodePerson(p)| <= MAX_INT
    ensures DecodePerson(EncodePerson(p), EMPTY) == Outcome(p, None)
  {
    hide EncodePerson;
    EncodedPersonMerges(EncodePerson(p), 0, EMPTY, p);
  }

  /** Two encodings one after the other decode to the field-wise merge. */
  lemma PersonsMerge(p: PersonData, q: PersonData)
    requires |EncodePerson(p) + EncodePerson(q)| <= MAX_INT
    ensures DecodePerson(EncodePerson(p) + EncodePerson(q), EMPTY) == Outcome(Merge(p, q), None)
  {
    hide EncodePerson;
    var d := EncodePerson(p) + EncodePerson(q);
    EncodedPersonMerges(d, 0, EMPTY, p);
    EncodedPersonMerges(d, |EncodePerson(p)|, p, q);
  }

  lemma {:induction false} EncodedReplyAppends(d: Bytes, i: nat, ps: seq<PersonData>, qs: seq<PersonData>)
    requires |d| <= MAX_INT && At(d, i, EncodeReply(qs))
    ensures DecodeReplyFrom(d, i, ps) == DecodeReplyFrom(d, i + |EncodeReply(qs)|, ps + qs)
    decreases |qs|
  {
    hide At, LengthField, ReplyStep, EncodePerson;
    if qs == [] {
      assert ps + qs == ps;
    } else {
      var x := EncodePerson(qs[0]);
      AtSplit(d, i, LengthField(1, x), EncodeReply(qs[1..]));
      NestedPersonRead(d, i, ps, qs[0]);
      EncodedReplyAppends(d, i + |LengthField(1, x)|, ps + [qs[0]], qs[1..]);
      assert ps + [qs[0]] + qs[1..] == ps + qs;
    }
  }

  lemma NestedPersonRead(d: Bytes, i: nat, ps: seq<PersonData>, p: PersonData)
    requires |d| <= MAX_INT && At(d, i, LengthField(1, EncodePerson(p)))
    ensures i < i + |LengthField(1, EncodePerson(p))| <= |d|
    ensures ReplyStep(d, i, ps) == Next(ps + [p], i + |LengthField(1, EncodePerson(p))|)
  {
    hide LengthField, HeadAt, SpanAt, EncodePerson, DecodePerson;
    LengthFieldRead(d, i, 1, EncodePerson(p));
    PersonRoundTrip(p);
  }

  /** The round trip of a reply with any number of persons. */
  lemma ReplyRoundTrip(ps: seq<PersonData>)
    requires |EncodeReply(ps)| <= MAX_INT
    ensures DecodeReply(EncodeReply(ps), []) == Outcome(ps, None)
  {
    hide EncodeReply;
    EncodedReplyAppends(EncodeReply(ps), 0, [], ps);
    assert [] + ps == ps;
  }

  // ---- decoding is a homomorphism on concatenation -------------------------------------------

  lemma HeadEmbeds(d: Bytes, i: nat, e: Bytes, o: nat)
    requires i <= |d| && At(e, o, d)
    requires HeadAt(d, i).Ok? || |e| == o + |d|
    ensures match HeadAt(d, i)
            case Ok(h) => HeadAt(e, o + i) == Ok(h.(next := o + h.next))
            case Err(err) => HeadAt(e, o + i) == Err(err)
  {
    hide VarintAt, At;
    VarintEmbeds(d, i, e, o);
  }

  lemma SpanEmbeds(d: Bytes, i: nat, e: Bytes, o: nat)
    requires i <= |d| && |e| <= MAX_INT && At(e, o, d)
    requires SpanAt(d, i).Ok? || |e| == o + |d|
    ensures match SpanAt(d, i)
            case Ok(s) => SpanAt(e, o + i) == Ok(Span(o + s.from, o + s.to))
                          && e[o + s.from..o + s.to] == d[s.from..s.to]
            case Err(_) => SpanAt(e, o + i).Err?
  {
    hide VarintAt;
    VarintEmbeds(d, i, e, o);
    if SpanAt(d, i).Ok? {
      SubSpan(d, SpanAt(d, i).value, e, o);
    }
  }

  lemma SubSpan(d: Bytes, s: Span, e: Bytes, o: nat)
    requires At(e, o, d) && s.from <= s.to <= |d|
    ensures e[o + s.from..o + s.to] == d[s.from..s.to]
  {
    forall k | s.from <= k < s.to
      ensures e[o + k] == d[k]
    {
      assert e[o..o + |d|][k] == d[k];
    }
  }

  lemma UnknownEmbeds(d: Bytes, i: nat, e: Bytes, o: nat)
    requires i <= |d| && |e| <= MAX_INT && At(e, o, d)
    requires UnknownAt(d, i).Ok? || |e| == o + |d|
    ensures match UnknownAt(d, i)
            case Ok(j) => UnknownAt(e, o + i) == Ok(o + j)
            case Err(_) => UnknownAt(e, o + i).Err?
  {
    hide ElementEnd;
    var x, y := d[i..], e[o + i..];
    assert e[o..o + |d|][i..] == e[o + i..o + |d|];
    assert y[..|x|] == x;
    assert At(y, 0, x);
    if UnknownAt(d, i).Ok? {
      ElementExtends(x, 0, y);
    } else {
      assert x == y;
    }
  }

  /** A turn of the loop is the same turn where its bytes are part of longer ones; it
      may fail there only if the longer ones end at the same place. */
  lemma PersonStepEmbeds(d: Bytes, i: nat, m: PersonData, e: Bytes, o: nat)
    requires i <= |d| && |e| <= MAX_INT && At(e, o, d)
    requires PersonStep(d, i, m).Next? || |e| == o + |d|
    ensures match PersonStep(d, i, m)
            case Next(m', j) => PersonStep(e, o + i, m) == Next(m', o + j)
            case Stop(m', _) => PersonStep(e, o + i, m).Stop? && PersonStep(e, o + i, m).msg == m'
  {
    hide HeadAt, SpanAt, UnknownAt, VarintAt, At;
    HeadEmbeds(d, i, e, o);
    if HeadAt(d, i).Ok? {
      var h := HeadAt(d, i).value;
      if h.num == 1 || h.num == 2 {
        if h.wireType == 2 {
          SpanEmbeds(d, h.next, e, o);
        }
      } else if h.num == 3 {
        if h.wireType == 0 {
          VarintEmbeds(d, h.next, e, o);
        }
      } else {
        UnknownEmbeds(d, i, e, o);
      }
    }
  }

  lemma ReplyStepEmbeds(d: Bytes, i: nat, ps: seq<PersonData>, e: Bytes, o: nat)
    requires i <= |d| && |e| <= MAX_INT && At(e, o, d)
    requires ReplyStep(d, i, ps).Next? || |e| == o + |d|
    ensures match ReplyStep(d, i, ps)
            case Next(ps', j) => ReplyStep(e, o + i, ps) == Next(ps', o + j)
            case Stop(ps', _) => ReplyStep(e, o + i, ps).Stop? && ReplyStep(e, o + i, ps).msg == ps'
  {
    hide HeadAt, SpanAt, UnknownAt, DecodePerson, At;
    HeadEmbeds(d, i, e, o);
    if HeadAt(d, i).Ok? {
      var h := HeadAt(d, i).value;
      if h.num != 1 {
        UnknownEmbeds(d, i, e, o);
      } else if h.wireType == 2 {
        SpanEmbeds(d, h.next, e, o);
      }
    }
  }

  lemma {:induction false} PersonPrefix(d: Bytes, i: nat, m: PersonData, e: Bytes)
    requires i <= |d| && |e| <= MAX_INT && At(e, 0, d)
    requires DecodePersonFrom(d, i, m).err.None?
    ensures DecodePersonFrom(e, i, m) == DecodePersonFrom(e, |d|, DecodePersonFrom(d, i, m).msg)
    decreases |d| - i
  {
    hide PersonStep, At;
    if i < |d| {
      PersonStepEmbeds(d, i, m, e, 0);
      var s := PersonStep(d, i, m);
      PersonPrefix(d, s.at, s.msg, e);
    }
  }

  lemma {:induction false} PersonSuffix(d: Bytes, i: nat, m: PersonData, e: Bytes, o: nat)
    requires i <= |d| && |e| == o + |d| <= MAX_INT && At(e, o, d)
    ensures Agree(DecodePersonFrom(e, o + i, m), DecodePersonFrom(d, i, m))
    decreases |d| - i
  {
    hide PersonStep, At;
    if i < |d| {
      PersonStepEmbeds(d, i, m, e, o);
      var s := PersonStep(d, i, m);
      if s.Next? {
        PersonSuffix(d, s.at, s.msg, e, o);
      }
    }
  }

  /** Decoding bytes one after the other is decoding their concatenation, for any
      bytes of which the first part decodes. */
  lemma PersonConcatenation(d: Bytes, d': Bytes, m: PersonData)
    requires |d + d'| <= MAX_INT
    requires DecodePerson(d, m).err.None?
    ensures Agree(DecodePerson(d + d', m), DecodePerson(d', DecodePerson(d, m).msg))
  {
    hide DecodePersonFrom;
    PersonPrefix(d, 0, m, d + d');
    PersonSuffix(d', 0, DecodePerson(d, m).msg, d + d', |d|);
  }

  lemma {:induction false} ReplyPrefix(d: Bytes, i: nat, ps: seq<PersonData>, e: Bytes)
    requires i <= |d| && |e| <= MAX_INT && At(e, 0, d)
    requires DecodeReplyFrom(d, i, ps).err.None?
    ensures DecodeReplyFrom(e, i, ps) == DecodeReplyFrom(e, |d|, DecodeReplyFrom(d, i, ps).msg)
    decreases |d| - i
  {
    hide ReplyStep, At;
    if i < |d| {
      ReplyStepEmbeds(d, i, ps, e, 0);
      var s := ReplyStep(d, i, ps);
      ReplyPrefix(d, s.at, s.msg, e);
    }
  }

  lemma {:induction false} ReplySuffix(d: Bytes, i: nat, ps: seq<PersonData>, e: Bytes, o: nat)
    requires i <= |d| && |e| == o + |d| <= MAX_INT && At(e, o, d)
    ensures Agree(DecodeReplyFrom(e, o + i, ps), DecodeReplyFrom(d, i, ps))
    decreases |d| - i
  {
    hide ReplyStep, At;
    if i < |d| {
      ReplyStepEmbeds(d, i, ps, e, o);
      var s := ReplyStep(d, i, ps);
      if s.Next? {
        ReplySuffix(d, s.at, s.msg, e, o);
      }
    }
  }

  lemma ReplyConcatenation(d: Bytes, d': Bytes, ps: seq<PersonData>)
    requires |d + d'| <= MAX_INT
    requires DecodeReply(d, ps).err.None?
    ensures Agree(DecodeReply(d + d', ps), DecodeReply(d', DecodeReply(d, ps).msg))
  {
    hide DecodeReplyFrom;
    ReplyPrefix(d, 0, ps, d + d');
    ReplySuffix(d', 0, DecodeReply(d, ps).msg, d + d', |d|);
  }

  /** Two encoded replies one after the other decode to the two lists appended. */
  lemma RepliesAppend(ps: seq<PersonData>, qs: seq<PersonData>)
    requires |EncodeReply(ps) + EncodeReply(qs)| <= MAX_INT
    ensures DecodeReply(EncodeReply(ps) + EncodeReply(qs), []) == Outcome(ps + qs, None)
  {
    hide EncodeReply, DecodeReplyFrom, At;
    var d := EncodeReply(ps) + EncodeReply(qs);
    AtSuffix(EncodeReply(ps), EncodeReply(qs));
    EncodedReplyAppends(d, 0, [], ps);
    assert [] + ps == ps;
    EncodedReplyAppends(d, |EncodeReply(ps)|, ps, qs);
    DecodedAll(d, ps + qs);
  }

  lemma DecodedAll(d: Bytes, ps: seq<PersonData>)
    requires |d| <= MAX_INT
    ensures DecodeReplyFrom(d, |d|, ps) == Outcome(ps, None)
  {
  }

  // ---- unknown fields ----------------------------------------------------------------------------

  lemma UnknownHead(d: Bytes, i: nat, f: Field)
    requires |d| <= MAX_INT && WellFormed(f) && At(d, i, Encode(f))
    ensures exists j :: HeadAt(d, i) == Ok(FieldHead(f.num, WireType(f), j))
    ensures UnknownAt(d, i) == Ok(i + |Encode(f)|)
  {
    hide HeadAt, ElementEnd, Bytes128;
    var t := Tag(f.num, WireType(f));
    assert Encode(f)[..|t|] == t;
    assert d[i..i + |Encode(f)|][..|t|] == d[i..i + |t|];
    HeadRead(d, i, f.num, WireType(f));
    var x := d[i..];
    assert x[..|Encode(f)|] == Encode(f);
    FieldIsElement(x, 0, f);
  }

  /** A well-formed field with an unknown number, put between any two parts of the
      bytes, changes nothing. */
  lemma PersonIgnoresUnknown(d: Bytes, f: Field, d': Bytes, m: PersonData)
    requires |d + Encode(f) + d'| <= MAX_INT
    requires WellFormed(f) && f.num > 3
    requires DecodePerson(d, m).err.None?
    ensures Agree(DecodePerson(d + Encode(f) + d', m), DecodePerson(d + d', m))
  {
    hide Encode, PersonStep, At;
    var m1 := DecodePerson(d, m).msg;
    var x := Encode(f) + d';
    assert d + Encode(f) + d' == d + x;
    PersonConcatenation(d, x, m);
    PersonConcatenation(d, d', m);
    PersonSkips(x, f, m1);
    AtSuffix(Encode(f), d');
    PersonSuffix(d', 0, m1, x, |Encode(f)|);
  }

  lemma AtSuffix(x: Bytes, y: Bytes)
    ensures At(x + y, 0, x) && At(x + y, |x|, y)
  {
  }

  lemma PersonSkips(x: Bytes, f: Field, m: PersonData)
    requires |x| <= MAX_INT && WellFormed(f) && f.num > 3 && Encode(f) <= x
    ensures PersonStep(x, 0, m) == Next(m, |Encode(f)|)
  {
    hide HeadAt, UnknownAt, Encode;
    UnknownHead(x, 0, f);
  }

  lemma ReplyIgnoresUnknown(d: Bytes, f: Field, d': Bytes, ps: seq<PersonData>)
    requires |d + Encode(f) + d'| <= MAX_INT
    requires WellFormed(f) && f.num > 1
    requires DecodeReply(d, ps).err.None?
    ensures Agree(DecodeReply(d + Encode(f) + d', ps), DecodeReply(d + d', ps))
  {
    hide Encode, ReplyStep, At;
    var ps1 := DecodeReply(d, ps).msg;
    var x := Encode(f) + d';
    assert d + Encode(f) + d' == d + x;
    ReplyConcatenation(d, x, ps);
    ReplyConcatenation(d, d', ps);
    ReplySkips(x, f, ps1);
    AtSuffix(Encode(f), d');
    ReplySuffix(d', 0, ps1, x, |Encode(f)|);
  }

  lemma ReplySkips(x: Bytes, f: Field, ps: seq<PersonData>)
    requires |x| <= MAX_INT && WellFormed(f) && f.num > 1 && Encode(f) <= x
    ensures ReplyStep(x, 0, ps) == Next(ps, |Encode(f)|)
  {
    hide HeadAt, UnknownAt, Encode;
    UnknownHead(x, 0, f);
  }

  // ---- what comes last ---------------------------------------------------------------------------

  /** After bytes that decode, more bytes are decoded onto what those gave. */
  lemma PersonGoesOn(d: Bytes, t: Bytes, m: PersonData)
    requires |d + t| <= MAX_INT && DecodePerson(d, m).err.None?
    ensures DecodePerson(d + t, m) == DecodePersonFrom(d + t, |d|, DecodePerson(d, m).msg)
    ensures At(d + t, |d|, t)
  {
    AtSuffix(d, t);
    PersonPrefix(d, 0, m, d + t);
  }

  lemma ReplyGoesOn(d: Bytes, t: Bytes, ps: seq<PersonData>)
    requires |d + t| <= MAX_INT && DecodeReply(d, ps).err.None?
    ensures DecodeReply(d + t, ps) == DecodeReplyFrom(d + t, |d|, DecodeReply(d, ps).msg)
    ensures At(d + t, |d|, t)
  {
    AtSuffix(d, t);
    ReplyPrefix(d, 0, ps, d + t);
  }

  /** The last age wins, whatever it is: an explicit zero resets the age. */
  lemma LastAgeWins(d: Bytes, m: PersonData, w: Word)
    requires |d + (Tag(3, 0) + Bytes128(w))| <= MAX_INT && DecodePerson(d, m).err.None?
    ensures DecodePerson(d + (Tag(3, 0) + Bytes128(w)), m)
         == Outcome(DecodePerson(d, m).msg.(age := ToInt64(w)), None)
  {
    hide DecodePerson, HeadAt, VarintAt, Bytes128, At;
    var t := Tag(3, 0) + Bytes128(w);
    var e := d + t;
    PersonGoesOn(d, t, m);
    AtSplit(e, |d|, Tag(3, 0), Bytes128(w));
    HeadRead(e, |d|, 3, 0);
    VarintRoundTrip(e, |d| + |Tag(3, 0)|, w);
  }

  /** The last name and the last sex win, empty ones included. */
  lemma LastStringWins(d: Bytes, m: PersonData, num: nat, bs: Bytes)
    requires |d + LengthField(num, bs)| <= MAX_INT && (num == 1 || num == 2) && DecodePerson(d, m).err.None?
    ensures DecodePerson(d + LengthField(num, bs), m)
         == Outcome(if num == 1 then DecodePerson(d, m).msg.(name := bs) else DecodePerson(d, m).msg.(sex := bs), None)
  {
    hide DecodePerson, HeadAt, SpanAt, LengthField, At;
    PersonGoesOn(d, LengthField(num, bs), m);
    LengthFieldRead(d + LengthField(num, bs), |d|, num, bs);
  }

  /** A nested person is appended as far as its bytes decode, and their error is the
      reply's. */
  lemma LastNestedAppended(d: Bytes, ps: seq<PersonData>, x: Bytes)
    requires |d + LengthField(1, x)| <= MAX_INT && DecodeReply(d, ps).err.None?
    ensures var p := DecodePerson(x, EMPTY);
            DecodeReply(d + LengthField(1, x), ps) == Outcome(DecodeReply(d, ps).msg + [p.msg], p.err)
  {
    hide DecodeReply, DecodePerson, HeadAt, SpanAt, LengthField, At;
    ReplyGoesOn(d, LengthField(1, x), ps);
    LengthFieldRead(d + LengthField(1, x), |d|, 1, x);
  }

  // ---- what fails ----------------------------------------------------------------------------------

  /** The field number of a tag, read as a signed 32-bit number, and its wire type decide
      first: no end tags, no numbers below one. */
  lemma HeadDecides(e: Bytes, i: nat, w: Word)
    requires |e| <= MAX_INT && At(e, i, Bytes128(w))
    ensures w % 8 == 4 ==> HeadAt(e, i) == Err(EndGroupForNonGroup)
    ensures var n := w / 8 % TWO32;
            && (w % 8 != 4 && (n == 0 || n >= TWO31) ==> HeadAt(e, i) == Err(IllegalTag))
            && (w % 8 != 4 && 0 < n < TWO31 ==> HeadAt(e, i) == Ok(FieldHead(n, w % 8, i + |Bytes128(w)|)))
  {
    hide VarintAt, Bytes128, At;
    VarintRoundTrip(e, i, w);
  }

  /** A field of a person with a tag that cannot stand there stops the decoding with the
      message as it was. */
  lemma BadTagStops(d: Bytes, m: PersonData, w: Word, t: Bytes)
    requires |d + (Bytes128(w) + t)| <= MAX_INT && DecodePerson(d, m).err.None?
    ensures var n, r := w / 8 % TWO32, DecodePerson(d + (Bytes128(w) + t), m);
            && (w % 8 == 4 ==> r == Outcome(DecodePerson(d, m).msg, Some(EndGroupForNonGroup)))
            && (w % 8 != 4 && (n == 0 || n >= TWO31) ==> r == Outcome(DecodePerson(d, m).msg, Some(IllegalTag)))
            && (w % 8 != 4 && (if n == 3 then w % 8 != 0 else (n == 1 || n == 2) && w % 8 != 2) ==>
                  r == Outcome(DecodePerson(d, m).msg, Some(WrongWireType)))
  {
    hide DecodePerson, HeadAt, Bytes128, At;
    var e := d + (Bytes128(w) + t);
    PersonGoesOn(d, Bytes128(w) + t, m);
    AtSplit(e, |d|, Bytes128(w), t);
    assert Bytes128(w) != [];
    HeadDecides(e, |d|, w);
  }

  lemma BadReplyTagStops(d: Bytes, ps: seq<PersonData>, w: Word, t: Bytes)
    requires |d + (Bytes128(w) + t)| <= MAX_INT && DecodeReply(d, ps).err.None?
    ensures var n, r := w / 8 % TWO32, DecodeReply(d + (Bytes128(w) + t), ps);
            && (w % 8 == 4 ==> r == Outcome(DecodeReply(d, ps).msg, Some(EndGroupForNonGroup)))
            && (w % 8 != 4 && (n == 0 || n >= TWO31) ==> r == Outcome(DecodeReply(d, ps).msg, Some(IllegalTag)))
            && (n == 1 && w % 8 != 2 && w % 8 != 4 ==> r == Outcome(DecodeReply(d, ps).msg, Some(WrongWireType)))
  {
    hide DecodeReply, HeadAt, Bytes128, At;
    var e := d + (Bytes128(w) + t);
    ReplyGoesOn(d, Bytes128(w) + t, ps);
    AtSplit(e, |d|, Bytes128(w), t);
    assert Bytes128(w) != [];
    HeadDecides(e, |d|, w);
  }

  lemma LongSpan(e: Bytes, i: nat, len: Word)
    requires |e| <= MAX_INT && At(e, i, Bytes128(len)) && |e| < i + |Bytes128(len)| + len
    ensures SpanAt(e, i) == Err(if i + |Bytes128(len)| + len >= TWO63 then InvalidLength else UnexpectedEOF)
  {
    hide VarintAt, Bytes128, At;
    VarintRoundTrip(e, i, len);
  }

  /** A length that goes past the end of the bytes, or past the largest int. */
  lemma LongStringStops(d: Bytes, m: PersonData, num: nat, len: Word, t: Bytes)
    requires |d + (Tag(num, 2) + Bytes128(len) + t)| <= MAX_INT && DecodePerson(d, m).err.None?
    requires (num == 1 || num == 2) && |t| < len
    ensures var x := Tag(num, 2) + Bytes128(len);
            var err := if |d + x| + len >= TWO63 then InvalidLength else UnexpectedEOF;
            DecodePerson(d + (x + t), m) == Outcome(DecodePerson(d, m).msg, Some(err))
  {
    hide DecodePerson, HeadAt, SpanAt, VarintAt, Bytes128, At;
    var x := Tag(num, 2) + Bytes128(len);
    var e := d + (x + t);
    PersonGoesOn(d, x + t, m);
    AtSplit(e, |d|, x, t);
    AtSplit(e, |d|, Tag(num, 2), Bytes128(len));
    HeadRead(e, |d|, num, 2);
    LongSpan(e, |d| + |Tag(num, 2)|, len);
  }

  lemma LongNestedStops(d: Bytes, ps: seq<PersonData>, len: Word, t: Bytes)
    requires |d + (Tag(1, 2) + Bytes128(len) + t)| <= MAX_INT && DecodeReply(d, ps).err.None? && |t| < len
    ensures var x := Tag(1, 2) + Bytes128(len);
            var err := if |d + x| + len >= TWO63 then InvalidLength else UnexpectedEOF;
            DecodeReply(d + (x + t), ps) == Outcome(DecodeReply(d, ps).msg, Some(err))
  {
    hide DecodeReply, HeadAt, SpanAt, VarintAt, Bytes128, At;
    var x := Tag(1, 2) + Bytes128(len);
    var e := d + (x + t);
    ReplyGoesOn(d, x + t, ps);
    AtSplit(e, |d|, x, t);
    AtSplit(e, |d|, Tag(1, 2), Bytes128(len));
    HeadRead(e, |d|, 1, 2);
    LongSpan(e, |d| + |Tag(1, 2)|, len);
  }

  /** An age cut short, or too long, keeps what was gathered of it. */
  lemma CutAgeStops(d: Bytes, m: PersonData, t: Bytes)
    requires |d + (Tag(3, 0) + t)| <= MAX_INT && DecodePerson(d, m).err.None? && VarintAt(t, 0).err.Some?
    ensures DecodePerson(d + (Tag(3, 0) + t), m)
         == Outcome(DecodePerson(d, m).msg.(age := ToInt64(VarintAt(t, 0).value)), VarintAt(t, 0).err)
  {
    hide DecodePerson, HeadAt, VarintAt, Bytes128, At;
    var e := d + (Tag(3, 0) + t);
    PersonGoesOn(d, Tag(3, 0) + t, m);
    AtSplit(e, |d|, Tag(3, 0), t);
    HeadRead(e, |d|, 3, 0);
    VarintEmbeds(t, 0, e, |d| + |Tag(3, 0)|);
  }

  /** A tag cut short, or too long. */
  lemma CutTagStops(d: Bytes, m: PersonData, ps: seq<PersonData>, t: Bytes)
    requires |d + t| <= MAX_INT && t != [] && VarintAt(t, 0).err.Some?
    ensures DecodePerson(d, m).err.None? ==>
              DecodePerson(d + t, m) == Outcome(DecodePerson(d, m).msg, VarintAt(t, 0).err)
    ensures DecodeReply(d, ps).err.None? ==>
              DecodeReply(d + t, ps) == Outcome(DecodeReply(d, ps).msg, VarintAt(t, 0).err)
  {
    hide DecodePerson, DecodeReply, VarintAt, At;
    AtSuffix(d, t);
    VarintEmbeds(t, 0, d + t, |d|);
    if DecodePerson(d, m).err.None? {
      PersonGoesOn(d, t, m);
    }
    if DecodeReply(d, ps).err.None? {
      ReplyGoesOn(d, t, ps);
    }
  }

  /** An unknown field that is no element, or ends past the bytes, stops the decoding. */
  lemma BadUnknownStops(d: Bytes, m: PersonData, ps: seq<PersonData>, t: Bytes)
    requires |d + t| <= MAX_INT && t != [] && HeadAt(t, 0).Ok?
    requires match ElementEnd(t, 0) case Err(_) => true case Ok(n) => n > |t|
    ensures var err := match ElementEnd(t, 0)
                       case Err(x) => Some(x)
                       case Ok(n) => Some(if |d| + n >= TWO63 then InvalidLength else UnexpectedEOF);
            && (HeadAt(t, 0).value.num > 3 && DecodePerson(d, m).err.None? ==>
                  DecodePerson(d + t, m) == Outcome(DecodePerson(d, m).msg, err))
            && (HeadAt(t, 0).value.num > 1 && DecodeReply(d, ps).err.None? ==>
                  DecodeReply(d + t, ps) == Outcome(DecodeReply(d, ps).msg, err))
  {
    hide DecodePerson, DecodeReply, HeadAt, ElementEnd, At;
    AtSuffix(d, t);
    HeadEmbeds(t, 0, d + t, |d|);
    assert (d + t)[|d|..] == t;
    if DecodePerson(d, m).err.None? {
      PersonGoesOn(d, t, m);
    }
    if DecodeReply(d, ps).err.None? {
      ReplyGoesOn(d, t, ps);
    }
  }
}
