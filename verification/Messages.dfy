/** The generated methods of Person and PersonsReply: sizes, the backward writers into
    a buffer, and the parsing loops, each tied to the forward forms of Codec. */
module Messages {
  import opened Options
  import opened Varint
  import opened Skip
  import opened Codec
  import opened Words

  /** The literal tag bytes the writers use are the tags of the fields. */
  lemma TagBytes()
    ensures Tag(1, 2) == [0x0a] && Tag(2, 2) == [0x12] && Tag(3, 0) == [0x18]
  {
  }

  /** The bytes of a person, in the order in which they stand: name, sex, age, each with
      its literal tag, and left out at its default. */
  lemma PersonBytes(p: PersonData)
    ensures EncodePerson(p)
         == (if p.name == [] then [] else [0x0a] + Bytes128(|p.name|) + p.name)
            + (if p.sex == [] then [] else [0x12] + Bytes128(|p.sex|) + p.sex)
            + (if p.age == 0 then [] else [0x18] + Bytes128(if p.age < 0 then p.age + TWO64 else p.age))
  {
    hide Bytes128, Tag;
    TagBytes();
  }

  /** The bytes of a reply: each person's, with its length and the literal tag, in turn. */
  lemma ReplyBytes(ps: seq<PersonData>)
    ensures ps == [] ==> EncodeReply(ps) == []
    ensures ps != [] ==> var x := EncodePerson(ps[0]);
                         EncodeReply(ps) == [0x0a] + Bytes128(|x|) + x + EncodeReply(ps[1..])
  {
    hide Bytes128, Tag, EncodePerson;
    TagBytes();
  }

  /** A length-delimited field, written so that it ends just before `end`. */
  method WriteString(dAtA: array<Byte>, end: nat, ghost num: nat, tag: Byte, bs: Bytes) returns (i: nat)
    requires Tag(num, 2) == [tag] && |bs| <= MAX_INT
    requires |LengthField(num, bs)| <= end <= dAtA.Length
    modifies dAtA
    ensures i == end - |LengthField(num, bs)|
    ensures dAtA[..] == Splice(old(dAtA[..]), i, LengthField(num, bs))
  {
    hide Bytes128, Sov, Tag, Splice;
    ghost var s := dAtA[..];
    SovIsLength(|bs|);
    i := end - |bs|;
    CopyInto(dAtA, i, bs);
    i := EncodeVarint(dAtA, i, |bs|);
    SpliceBefore(s, i, Bytes128(|bs|), bs);
    i := i - 1;
    WriteByte(dAtA, i, tag);
    SpliceBefore(s, i, [tag], Bytes128(|bs|) + bs);
    assert [tag] + (Bytes128(|bs|) + bs) == LengthField(num, bs);
  }

  method WriteByte(dAtA: array<Byte>, i: nat, b: Byte)
    requires i < dAtA.Length
    modifies dAtA
    ensures dAtA[..] == Splice(old(dAtA[..]), i, [b])
  {
    dAtA[i] := b;
  }

  /** Go's copy(dAtA[i:], src) for a source that fits. */
  method CopyInto(dAtA: array<Byte>, i: nat, src: Bytes)
    requires i + |src| <= dAtA.Length
    modifies dAtA
    ensures dAtA[..] == Splice(old(dAtA[..]), i, src)
  {
    forall k | 0 <= k < |src| {
      dAtA[i + k] := src[k];
    }
  }

  method WriteStringField(dAtA: array<Byte>, end: nat, ghost num: nat, tag: Byte, bs: Bytes) returns (i: nat)
    requires Tag(num, 2) == [tag] && |bs| <= MAX_INT
    requires |StringField(num, bs)| <= end <= dAtA.Length
    modifies dAtA
    ensures i == end - |StringField(num, bs)|
    ensures dAtA[..] == Splice(old(dAtA[..]), i, StringField(num, bs))
  {
    hide Tag, LengthField;
    SpliceNothing(dAtA[..], end);
    i := end;
    if |bs| > 0 {
      i := WriteString(dAtA, end, num, tag, bs);
    }
  }

  method WriteAge(dAtA: array<Byte>, end: nat, age: Int64) returns (i: nat)
    requires |AgeField(age)| <= end <= dAtA.Length
    modifies dAtA
    ensures i == end - |AgeField(age)|
    ensures dAtA[..] == Splice(old(dAtA[..]), i, AgeField(age))
  {
    hide Bytes128, Sov, Tag, Splice;
    ghost var s := dAtA[..];
    TagBytes();
    SpliceNothing(s, end);
    i := end;
    if age != 0 {
      SovIsLength(ToWord(age));
      i := EncodeVarint(dAtA, i, ToWord(age));
      i := i - 1;
      WriteByte(dAtA, i, 0x18);
      SpliceBefore(s, i, [0x18], Bytes128(ToWord(age)));
    }
  }

  /** The tag at the start of a turn of an Unmarshal loop. */
  method ReadHead(dAtA: Bytes, start: nat) returns (num: int, wireType: nat, iNdEx: nat, err: Option<Error>)
    requires start <= |dAtA|
    ensures match HeadAt(dAtA, start)
            case Ok(h) => err == None && FieldHead(num, wireType, iNdEx) == h
            case Err(e) => err == Some(e)
  {
    hide VarintAt;
    var wire;
    wire, iNdEx, err := ReadVarint(dAtA, start);
    num, wireType := 0, 0;
    if err.Some? {
      return;
    }
    num := FieldNumber(wire);
    wireType := wire % 8;
    if wireType == 4 {
      return num, wireType, iNdEx, Some(EndGroupForNonGroup);
    }
    if num <= 0 {
      return num, wireType, iNdEx, Some(IllegalTag);
    }
  }

  /** The length of a string or nested message, and where its bytes end. */
  method ReadSpan(dAtA: Bytes, start: nat) returns (from: nat, to: nat, err: Option<Error>)
    requires start <= |dAtA| <= MAX_INT
    ensures match SpanAt(dAtA, start)
            case Ok(s) => err == None && Span(from, to) == s
            case Err(e) => err == Some(e)
  {
    hide VarintAt;
    var w;
    w, from, err := ReadVarint(dAtA, start);
    to := from;
    if err.Some? {
      return;
    }
    var length := ToInt64(w);
    if length < 0 {
      return from, to, Some(InvalidLength);
    }
    var postIndex := AddInt(from, length);
    if postIndex < 0 {
      return from, to, Some(InvalidLength);
    }
    if postIndex > |dAtA| {
      return from, to, Some(UnexpectedEOF);
    }
    to := postIndex;
  }

  /** The default branch: an unknown field is skipped from its tag on. */
  method SkipUnknown(dAtA: Bytes, preIndex: nat) returns (iNdEx: nat, err: Option<Error>)
    requires preIndex <= |dAtA| <= MAX_INT
    ensures match UnknownAt(dAtA, preIndex)
            case Ok(j) => err == None && iNdEx == j
            case Err(e) => err == Some(e)
  {
    var skippy;
    iNdEx := preIndex;
    skippy, err := SkipHelloworld(dAtA[preIndex..]);
    if err.Some? {
      return;
    }
    var end := AddInt(iNdEx, skippy);
    if end < 0 {
      return iNdEx, Some(InvalidLength);
    }
    if end > |dAtA| {
      return iNdEx, Some(UnexpectedEOF);
    }
    iNdEx := end;
  }

  class Person {
    var Name: Bytes
    var Sex: Bytes
    var Age: Int64

    constructor ()
      ensures Value() == EMPTY
    {
      Name, Sex, Age := [], [], 0;
    }

    ghost function Value(): PersonData
      reads this
    {
      PersonData(Name, Sex, Age)
    }

    method Size() returns (n: nat)
      requires |Name| <= MAX_INT && |Sex| <= MAX_INT
      ensures n == |EncodePerson(Value())|
    {
      hide Bytes128, Sov;
      SizeOfField(1, Name);
      SizeOfField(2, Sex);
      SizeOfAge(Age);
      n := 0;
      var l := |Name|;
      if l > 0 {
        n := n + 1 + l + Sov(l);
      }
      l := |Sex|;
      if l > 0 {
        n := n + 1 + l + Sov(l);
      }
      if Age != 0 {
        n := n + 1 + Sov(ToWord(Age));
      }
    }

    /** Writes the fields backwards into the part of the buffer before `end`. */
    method MarshalToSizedBuffer(dAtA: array<Byte>, end: nat) returns (n: nat)
      requires |EncodePerson(Value())| <= end <= dAtA.Length && end <= MAX_INT
      modifies dAtA
      ensures n == |EncodePerson(Value())|
      ensures dAtA[..] == Splice(old(dAtA[..]), end - n, EncodePerson(Value()))
    {
      hide Splice, StringField, AgeField, Tag;
      ghost var s := dAtA[..];
      ghost var a, b, c := StringField(1, Name), StringField(2, Sex), AgeField(Age);
      assert EncodePerson(Value()) == a + b + c == a + (b + c);
      TagBytes();
      FieldHoldsString(1, Name);
      FieldHoldsString(2, Sex);
      var i := WriteAge(dAtA, end, Age);
      i := WriteStringField(dAtA, i, 2, 0x12, Sex);
      SpliceBefore(s, i, b, c);
      i := WriteStringField(dAtA, i, 1, 0x0a, Name);
      SpliceBefore(s, i, a, b + c);
      return end - i;
    }

    method Marshal() returns (dAtA: array<Byte>)
      requires |EncodePerson(Value())| <= MAX_INT
      ensures fresh(dAtA) && dAtA[..] == EncodePerson(Value())
    {
      hide EncodePerson;
      PersonHoldsStrings(Value());
      var size := Size();
      dAtA := new Byte[size];
      ghost var s := dAtA[..];
      var n := MarshalToSizedBuffer(dAtA, size);
      SpliceAll(s, EncodePerson(Value()));
    }

    /** The parsing loop. */
    method Unmarshal(dAtA: Bytes) returns (err: Option<Error>)
      requires |dAtA| <= MAX_INT
      modifies this
      ensures Outcome(Value(), err) == DecodePerson(dAtA, old(Value()))
    {
      hide HeadAt, SpanAt, UnknownAt, VarintAt;
      var l := |dAtA|;
      var iNdEx := 0;
      while iNdEx < l
        invariant iNdEx <= l
        invariant DecodePersonFrom(dAtA, iNdEx, Value()) == DecodePerson(dAtA, old(Value()))
      {
        var fieldNum, wireType, next, e := ReadHead(dAtA, iNdEx);
        if e.Some? {
          return e;
        }
        match fieldNum {
          case 1 =>
            if wireType != 2 {
              return Some(WrongWireType);
            }
            var from, to, e1 := ReadSpan(dAtA, next);
            if e1.Some? {
              return e1;
            }
            Name := dAtA[from..to];
            iNdEx := to;
          case 2 =>
            if wireType != 2 {
              return Some(WrongWireType);
            }
            var from, to, e2 := ReadSpan(dAtA, next);
            if e2.Some? {
              return e2;
            }
            Sex := dAtA[from..to];
            iNdEx := to;
          case 3 =>
            if wireType != 0 {
              return Some(WrongWireType);
            }
            Age := 0;
            var w, after, e3 := ReadVarint(dAtA, next);
            Age := ToInt64(w);
            if e3.Some? {
              return e3;
            }
            iNdEx := after;
          case _ =>
            var after, e4 := SkipUnknown(dAtA, iNdEx);
            if e4.Some? {
              return e4;
            }
            iNdEx := after;
        }
      }
      return None;
    }
  }

  lemma SizeOfField(num: nat, bs: Bytes)
    requires 1 <= num <= 2 && |bs| <= MAX_INT
    ensures |StringField(num, bs)| == if |bs| > 0 then 1 + |bs| + Sov(|bs|) else 0
  {
    hide Sov;
    TagBytes();
    SovIsLength(|bs|);
  }

  lemma SizeOfAge(age: Int64)
    ensures |AgeField(age)| == if age != 0 then 1 + Sov(ToWord(age)) else 0
  {
    hide Sov;
    TagBytes();
    SovIsLength(ToWord(age));
  }

  lemma FieldHoldsString(num: nat, bs: Bytes)
    ensures |bs| <= |StringField(num, bs)|
  {
  }

  lemma PersonHoldsStrings(p: PersonData)
    ensures |p.name| <= |EncodePerson(p)| && |p.sex| <= |EncodePerson(p)|
  {
    hide StringField;
    FieldHoldsString(1, p.name);
    FieldHoldsString(2, p.sex);
  }

  lemma SpliceAll(s: Bytes, x: Bytes)
    requires |s| == |x|
    ensures Splice(s, 0, x) == x
  {
  }

  ghost function ValuesOf(ps: seq<Person>): (vs: seq<PersonData>)
    reads ps
    ensures |vs| == |ps| && forall k :: 0 <= k < |ps| ==> vs[k] == ps[k].Value()
  {
    seq(|ps|, k requires 0 <= k < |ps| reads ps => ps[k].Value())
  }

  /** The bytes of the persons from the k-th on. */
  ghost function EncodeFrom(vs: seq<PersonData>, k: nat): Bytes
    requires k <= |vs|
  {
    EncodeReply(vs[k..])
  }

  lemma EncodeFromEnds(vs: seq<PersonData>)
    ensures EncodeFrom(vs, |vs|) == [] && EncodeFrom(vs, 0) == EncodeReply(vs)
  {
    assert vs[|vs|..] == [] && vs[0..] == vs;
  }

  lemma EncodeFromSplits(vs: seq<PersonData>, k: nat)
    requires k < |vs|
    ensures EncodeFrom(vs, k) == LengthField(1, EncodePerson(vs[k])) + EncodeFrom(vs, k + 1)
  {
    hide LengthField, EncodePerson;
    assert vs[k..][0] == vs[k] && vs[k..][1..] == vs[k + 1..];
  }

  lemma {:induction false} EncodeFromFits(vs: seq<PersonData>, k: nat)
    requires k <= |vs|
    ensures |EncodeFrom(vs, k)| <= |EncodeReply(vs)|
  {
    hide LengthField, EncodePerson, EncodeFrom;
    if k > 0 {
      EncodeFromFits(vs, k - 1);
      EncodeFromSplits(vs, k - 1);
    } else {
      EncodeFromEnds(vs);
    }
  }

  class PersonsReply {
    var Persons: seq<Person>

    constructor ()
      ensures Persons == []
    {
      Persons := [];
    }

    method Size() returns (n: nat)
      requires |EncodeReply(ValuesOf(Persons))| <= MAX_INT
      ensures n == |EncodeReply(ValuesOf(Persons))|
    {
      hide EncodePerson, LengthField, Sov, EncodeReply, EncodeFrom, ValuesOf;
      ghost var vs := ValuesOf(Persons);
      EncodeFromEnds(vs);
      n := 0;
      var k := 0;
      while k < |Persons|
        invariant k <= |Persons|
        invariant n + |EncodeFrom(vs, k)| == |EncodeReply(vs)|
      {
        EncodeFromSplits(vs, k);
        EncodeFromFits(vs, k);
        ElementSize(EncodePerson(vs[k]));
        PersonHoldsStrings(vs[k]);
        var l := Persons[k].Size();
        n := n + 1 + l + Sov(l);
        k := k + 1;
      }
    }

    /** The persons are written last first, each before what is already there. */
    method MarshalToSizedBuffer(dAtA: array<Byte>, end: nat) returns (n: nat)
      requires |EncodeReply(ValuesOf(Persons))| <= end <= dAtA.Length && end <= MAX_INT
      modifies dAtA
      ensures n == |EncodeReply(ValuesOf(Persons))|
      ensures dAtA[..] == Splice(old(dAtA[..]), end - n, EncodeReply(ValuesOf(Persons)))
    {
      hide EncodePerson, LengthField, EncodeReply, EncodeFrom, Splice, ValuesOf;
      ghost var s, vs := dAtA[..], ValuesOf(Persons);
      EncodeFromEnds(vs);
      SpliceNothing(s, end);
      var i := end;
      var iNdEx := |Persons| - 1;
      while iNdEx >= 0
        invariant -1 <= iNdEx < |Persons|
        invariant i == end - |EncodeFrom(vs, iNdEx + 1)|
        invariant dAtA[..] == Splice(s, i, EncodeFrom(vs, iNdEx + 1))
      {
        EncodeFromSplits(vs, iNdEx);
        EncodeFromFits(vs, iNdEx);
        i := WritePersonBefore(dAtA, i, Persons[iNdEx], s, EncodeFrom(vs, iNdEx + 1));
        iNdEx := iNdEx - 1;
      }
      return end - i;
    }

    method Marshal() returns (dAtA: array<Byte>)
      requires |EncodeReply(ValuesOf(Persons))| <= MAX_INT
      ensures fresh(dAtA) && dAtA[..] == EncodeReply(ValuesOf(Persons))
    {
      hide EncodeReply;
      var size := Size();
      dAtA := new Byte[size];
      ghost var s := dAtA[..];
      var n := MarshalToSizedBuffer(dAtA, size);
      SpliceAll(s, EncodeReply(ValuesOf(Persons)));
    }

    /** The parsing loop. Every nested person is a new object. */
    method Unmarshal(dAtA: Bytes) returns (err: Option<Error>)
      requires |dAtA| <= MAX_INT
      modifies this
      ensures Outcome(ValuesOf(Persons), err) == DecodeReply(dAtA, old(ValuesOf(Persons)))
      ensures |old(Persons)| <= |Persons| && Persons[..|old(Persons)|] == old(Persons)
      ensures forall k :: |old(Persons)| <= k < |Persons| ==> fresh(Persons[k])
    {
      hide HeadAt, SpanAt, UnknownAt, DecodePerson, ValuesOf;
      var l := |dAtA|;
      var iNdEx := 0;
      ghost var was, n := Persons, |Persons|;
      while iNdEx < l
        invariant iNdEx <= l && n <= |Persons| && Persons[..n] == was
        invariant forall k :: n <= k < |Persons| ==> fresh(Persons[k])
        invariant DecodeReplyFrom(dAtA, iNdEx, ValuesOf(Persons)) == DecodeReply(dAtA, old(ValuesOf(Persons)))
      {
        var fieldNum, wireType, next, e := ReadHead(dAtA, iNdEx);
        if e.Some? {
          return e;
        }
        match fieldNum {
          case 1 =>
            if wireType != 2 {
              return Some(WrongWireType);
            }
            var from, to, e1 := ReadSpan(dAtA, next);
            if e1.Some? {
              return e1;
            }
            ghost var before := ValuesOf(Persons);
            var p := new Person();
            var e2 := p.Unmarshal(dAtA[from..to]);
            Persons := Persons + [p];
            assert ValuesOf(Persons) == before + [p.Value()];
            if e2.Some? {
              return e2;
            }
            iNdEx := to;
          case _ =>
            var after, e3 := SkipUnknown(dAtA, iNdEx);
            if e3.Some? {
              return e3;
            }
            iNdEx := after;
        }
      }
      return None;
    }
  }

  lemma ElementSize(x: Bytes)
    ensures |x| <= |LengthField(1, x)|
    ensures |x| <= MAX_INT ==> |LengthField(1, x)| == 1 + |x| + Sov(|x|)
  {
    hide Sov;
    TagBytes();
    if |x| <= MAX_INT {
      SovIsLength(|x|);
    }
  }

  /** One nested person: its own bytes, their length, and the tag. */
  method WritePerson(dAtA: array<Byte>, end: nat, p: Person) returns (i: nat)
    requires |LengthField(1, EncodePerson(p.Value()))| <= end <= dAtA.Length && end <= MAX_INT
    modifies dAtA
    ensures i == end - |LengthField(1, EncodePerson(p.Value()))|
    ensures dAtA[..] == Splice(old(dAtA[..]), i, LengthField(1, EncodePerson(p.Value())))
  {
    hide EncodePerson, Bytes128, Sov, Tag, Splice;
    ghost var s, x := dAtA[..], EncodePerson(p.Value());
    TagBytes();
    SovIsLength(|x|);
    var size := p.MarshalToSizedBuffer(dAtA, end);
    i := end - size;
    i := EncodeVarint(dAtA, i, size);
    SpliceBefore(s, i, Bytes128(|x|), x);
    i := i - 1;
    WriteByte(dAtA, i, 0x0a);
    SpliceBefore(s, i, [0x0a], Bytes128(|x|) + x);
    assert [0x0a] + (Bytes128(|x|) + x) == LengthField(1, x);
  }

  method WritePersonBefore(dAtA: array<Byte>, end: nat, p: Person, ghost s: Bytes, ghost done: Bytes)
    returns (i: nat)
    requires |LengthField(1, EncodePerson(p.Value()))| <= end <= dAtA.Length && end <= MAX_INT
    requires end + |done| <= |s| == dAtA.Length && dAtA[..] == Splice(s, end, done)
    modifies dAtA
    ensures i == end - |LengthField(1, EncodePerson(p.Value()))|
    ensures dAtA[..] == Splice(s, i, LengthField(1, EncodePerson(p.Value())) + done)
  {
    hide EncodePerson, LengthField, Splice;
    i := WritePerson(dAtA, end, p);
    SpliceBefore(s, i, LengthField(1, EncodePerson(p.Value())), done);
  }
}
