/** Skipping unknown fields. The loop that counts open groups is proved to agree with
    a grammar in which a group is a start tag, elements, and an end tag. */
module Skip {
  import opened Bits
  import opened Options
  import opened Varint

  datatype Result<+T> = Ok(value: T) | Err(error: Error)

  // ---- tokens -------------------------------------------------------------------------

  datatype Kind = Leaf | Start | End

  /** A token is a tag and, for the kinds that have one, its payload. */
  datatype Token = Token(kind: Kind, next: nat)

  /** The end of a payload of `n` bytes at `i`. It may lie past the end of the bytes;
      only a sum that overflows int is refused here. */
  ghost function PayloadEnd(i: nat, n: nat): (r: Result<Token>)
    requires i <= MAX_INT && n <= MAX_INT
    ensures r.Ok? ==> r.value == Token(Leaf, i + n) && i + n <= MAX_INT
  {
    var end := AddInt(i, n);
    if end < 0 then Err(InvalidLength) else Ok(Token(Leaf, end))
  }

  /** The token whose tag has wire type `wireType` and ends at `i`. */
  ghost function TokenBody(d: Bytes, i: nat, wireType: nat): (r: Result<Token>)
    requires i <= |d| <= MAX_INT
    ensures r.Ok? ==> i <= r.value.next <= MAX_INT
    ensures r.Ok? && !r.value.kind.Leaf? ==> r.value.next <= |d|
  {
    match wireType
    case 0 =>
      var v := VarintAt(d, i);
      if v.err.Some? then Err(v.err.value) else Ok(Token(Leaf, v.next))
    case 1 => PayloadEnd(i, 8)
    case 2 =>
      var v := VarintAt(d, i);
      if v.err.Some? then Err(v.err.value)
      else if ToInt64(v.value) < 0 then Err(InvalidLength)
      else PayloadEnd(v.next, ToInt64(v.value))
    case 3 => Ok(Token(Start, i))
    case 4 => Ok(Token(End, i))
    case 5 => PayloadEnd(i, 4)
    case _ => Err(IllegalWireType)
  }

  ghost function TokenAt(d: Bytes, i: nat): (r: Result<Token>)
    requires i <= |d| <= MAX_INT
    ensures r.Ok? ==> i < r.value.next <= MAX_INT
    ensures r.Ok? && !r.value.kind.Leaf? ==> r.value.next <= |d|
  {
    var tag := VarintAt(d, i);
    if tag.err.Some? then Err(tag.err.value) else TokenBody(d, tag.next, tag.value % 8)
  }

  // ---- the loop's own account: a counter of open groups --------------------------------

  ghost function Remaining(d: Bytes, i: nat): nat
  {
    if i < |d| then |d| - i else 0
  }

  /** What the loop does from position `i` with `depth` groups open. */
  ghost function SkipFrom(d: Bytes, i: nat, depth: nat): (r: Result<nat>)
    requires |d| <= MAX_INT
    ensures r.Ok? ==> i < r.value
    decreases Remaining(d, i)
  {
    if i >= |d| then Err(UnexpectedEOF) else
    match TokenAt(d, i)
    case Err(e) => Err(e)
    case Ok(t) =>
      if t.kind.Start? then SkipFrom(d, t.next, depth + 1)
      else if t.kind.End? then
        if depth == 0 then Err(UnexpectedEndOfGroup)
        else if depth == 1 then Ok(t.next)
        else SkipFrom(d, t.next, depth - 1)
      else if depth == 0 then Ok(t.next)
      else SkipFrom(d, t.next, depth)
  }

  // ---- the grammar --------------------------------------------------------------------

  /** The end of the element that begins at `i`: a leaf, or a group with everything
      in it. */
  ghost function ElementEnd(d: Bytes, i: nat): (r: Result<nat>)
    requires |d| <= MAX_INT
    ensures r.Ok? ==> i < r.value <= MAX_INT
    decreases Remaining(d, i), 0
  {
    if i >= |d| then Err(UnexpectedEOF) else
    match TokenAt(d, i)
    case Err(e) => Err(e)
    case Ok(t) =>
      if t.kind.Leaf? then Ok(t.next)
      else if t.kind.Start? then GroupEnd(d, t.next)
      else Err(UnexpectedEndOfGroup)
  }

  /** The end of the group whose contents begin at `i`: elements up to an end tag. */
  ghost function GroupEnd(d: Bytes, i: nat): (r: Result<nat>)
    requires |d| <= MAX_INT
    ensures r.Ok? ==> i < r.value <= |d|
    decreases Remaining(d, i), 1
  {
    if i >= |d| then Err(UnexpectedEOF)
    else if TokenAt(d, i).Ok? && TokenAt(d, i).value.kind.End? then Ok(TokenAt(d, i).value.next)
    else
      match ElementEnd(d, i)
      case Err(e) => Err(e)
      case Ok(j) => GroupEnd(d, j)
  }

  /** Counting open groups follows the grammar: inside a group the loop goes to the end
      of that group and then on with one group fewer open. */
  lemma {:induction false} CountingFollowsGroups(d: Bytes, i: nat, depth: nat)
    requires |d| <= MAX_INT
    ensures SkipFrom(d, i, depth + 1)
         == match GroupEnd(d, i)
            case Err(e) => Err(e)
            case Ok(j) => if depth == 0 then Ok(j) else SkipFrom(d, j, depth)
    decreases Remaining(d, i)
  {
    hide TokenAt;
    if i < |d| && TokenAt(d, i).Ok? {
      var t := TokenAt(d, i).value;
      if t.kind.Leaf? {
        CountingFollowsGroups(d, t.next, depth);
      } else if t.kind.Start? {
        CountingFollowsGroups(d, t.next, depth + 1);
        if GroupEnd(d, t.next).Ok? {
          CountingFollowsGroups(d, GroupEnd(d, t.next).value, depth);
        }
      }
    }
  }

  /** The skipper accepts exactly the elements of the grammar, with the same errors. */
  lemma SkipIsElement(d: Bytes)
    requires |d| <= MAX_INT
    ensures SkipFrom(d, 0, 0) == ElementEnd(d, 0)
  {
    hide TokenAt;
    if |d| > 0 && TokenAt(d, 0).Ok? && TokenAt(d, 0).value.kind.Start? {
      CountingFollowsGroups(d, TokenAt(d, 0).value.next, 0);
    }
  }

  /** One turn of the skipping loop up to what it does with the counter: the tag and the
      payload. */
  method ReadToken(dAtA: Bytes, start: nat) returns (kind: Kind, end: int, err: Option<Error>)
    requires start <= |dAtA| <= MAX_INT
    ensures match TokenAt(dAtA, start)
            case Ok(t) => err == None && kind == t.kind && end == t.next
            case Err(e) => err == Some(e)
  {
    hide Gather, VarintAt;
    kind := Leaf;
    var wire, next, e := ReadVarint(dAtA, start);
    if e.Some? {
      return Leaf, 0, e;
    }
    end := next;
    match wire % 8 {
      case 0 =>
        var _, after, e1 := ReadVarint(dAtA, next);
        if e1.Some? {
          return Leaf, 0, e1;
        }
        end := after;
      case 1 =>
        end := AddInt(next, 8);
      case 2 =>
        var w, after, e2 := ReadVarint(dAtA, next);
        if e2.Some? {
          return Leaf, 0, e2;
        }
        var length := ToInt64(w);
        if length < 0 {
          return Leaf, 0, Some(InvalidLength);
        }
        end := AddInt(after, length);
      case 3 =>
        kind := Start;
      case 4 =>
        kind := End;
      case 5 =>
        end := AddInt(next, 4);
      case _ =>
        return Leaf, 0, Some(IllegalWireType);
    }
    err := if end < 0 then Some(InvalidLength) else None;
  }

  /** The skipping loop. */
  method SkipHelloworld(dAtA: Bytes) returns (n: nat, err: Option<Error>)
    requires |dAtA| <= MAX_INT
    ensures match ElementEnd(dAtA, 0)
            case Ok(end) => err == None && n == end
            case Err(e) => err == Some(e) && n == 0
  {
    hide ElementEnd, TokenAt;
    SkipIsElement(dAtA);
    var l := |dAtA|;
    var iNdEx, depth := 0, 0;
    while iNdEx < l
      invariant 0 <= iNdEx <= MAX_INT && depth >= 0
      invariant SkipFrom(dAtA, iNdEx, depth) == SkipFrom(dAtA, 0, 0)
      decreases l - iNdEx
    {
      var kind, end, e := ReadToken(dAtA, iNdEx);
      if e.Some? {
        return 0, e;
      }
      match kind {
        case Start =>
          depth := depth + 1;
        case End =>
          if depth == 0 {
            return 0, Some(UnexpectedEndOfGroup);
          }
          depth := depth - 1;
        case Leaf =>
      }
      iNdEx := end;
      if depth == 0 {
        return iNdEx, None;
      }
    }
    return 0, Some(UnexpectedEOF);
  }

  // ---- well-formed fields -----------------------------------------------------------------

  datatype Field =
    | VarintField(num: nat, v: Word)
    | Fixed64Field(num: nat, bs: Bytes)
    | BytesField(num: nat, bs: Bytes)
    | GroupField(num: nat, fields: seq<Field>)
    | Fixed32Field(num: nat, bs: Bytes)

  const MAX_FIELD := 0x1fff_ffff

  ghost function WireType(f: Field): nat
  {
    match f
    case VarintField(_, _) => 0
    case Fixed64Field(_, _) => 1
    case BytesField(_, _) => 2
    case GroupField(_, _) => 3
    case Fixed32Field(_, _) => 5
  }

  ghost predicate WellFormed(f: Field)
  {
    && 1 <= f.num <= MAX_FIELD
    && match f
       case Fixed64Field(_, bs) => |bs| == 8
       case Fixed32Field(_, bs) => |bs| == 4
       case GroupField(_, fs) => forall g <- fs :: WellFormed(g)
       case _ => true
  }

  ghost function Tag(num: nat, wireType: nat): Bytes
  {
    Bytes128(num * 8 + wireType)
  }

  ghost function Encode(f: Field): (r: Bytes)
    ensures |r| > 0
  {
    match f
    case VarintField(n, v) => Tag(n, 0) + Bytes128(v)
    case Fixed64Field(n, bs) => Tag(n, 1) + bs
    case BytesField(n, bs) => Tag(n, 2) + Bytes128(|bs|) + bs
    case GroupField(n, fs) => Tag(n, 3) + EncodeAll(fs) + Tag(n, 4)
    case Fixed32Field(n, bs) => Tag(n, 5) + bs
  }

  ghost function EncodeAll(fs: seq<Field>): Bytes
  {
    if fs == [] then [] else Encode(fs[0]) + EncodeAll(fs[1..])
  }

  lemma TagRead(d: Bytes, i: nat, num: nat, wireType: nat)
    requires |d| <= MAX_INT && At(d, i, Tag(num, wireType)) && 1 <= num <= MAX_FIELD && wireType < 8
    ensures VarintAt(d, i) == Reading(num * 8 + wireType, i + |Tag(num, wireType)|, None)
    ensures TokenAt(d, i) == TokenBody(d, i + |Tag(num, wireType)|, wireType)
  {
    VarintRoundTrip(d, i, num * 8 + wireType);
    assert (num * 8 + wireType) % 8 == wireType;
  }

  /** A tag and a payload of known length. */
  lemma FixedIsToken(d: Bytes, i: nat, num: nat, wireType: nat, bs: Bytes)
    requires |d| <= MAX_INT && 1 <= num <= MAX_FIELD && At(d, i, Tag(num, wireType) + bs)
    requires (wireType == 1 && |bs| == 8) || (wireType == 5 && |bs| == 4)
    ensures TokenAt(d, i) == Ok(Token(Leaf, i + |Tag(num, wireType) + bs|))
  {
    hide At, Bytes128, VarintAt;
    AtSplit(d, i, Tag(num, wireType), bs);
    TagRead(d, i, num, wireType);
  }

  lemma VarintIsToken(d: Bytes, i: nat, num: nat, v: Word)
    requires |d| <= MAX_INT && 1 <= num <= MAX_FIELD && At(d, i, Tag(num, 0) + Bytes128(v))
    ensures TokenAt(d, i) == Ok(Token(Leaf, i + |Tag(num, 0) + Bytes128(v)|))
  {
    hide At, Bytes128, VarintAt;
    AtSplit(d, i, Tag(num, 0), Bytes128(v));
    TagRead(d, i, num, 0);
    VarintRoundTrip(d, i + |Tag(num, 0)|, v);
  }

  lemma BytesAreToken(d: Bytes, i: nat, num: nat, bs: Bytes)
    requires |d| <= MAX_INT && 1 <= num <= MAX_FIELD && At(d, i, Tag(num, 2) + Bytes128(|bs|) + bs)
    ensures TokenAt(d, i) == Ok(Token(Leaf, i + |Tag(num, 2) + Bytes128(|bs|) + bs|))
  {
    hide At, Bytes128, VarintAt;
    AtSplit(d, i, Tag(num, 2) + Bytes128(|bs|), bs);
    AtSplit(d, i, Tag(num, 2), Bytes128(|bs|));
    TagRead(d, i, num, 2);
    VarintRoundTrip(d, i + |Tag(num, 2)|, |bs|);
  }

  /** A well-formed field is an element, and ends where its bytes end, whatever comes
      before or after it. */
  lemma {:induction false} FieldIsElement(d: Bytes, i: nat, f: Field)
    requires |d| <= MAX_INT && WellFormed(f) && At(d, i, Encode(f))
    ensures ElementEnd(d, i) == Ok(i + |Encode(f)|)
    decreases f, 0
  {
    hide At, Bytes128, VarintAt, TokenAt;
    match f {
      case VarintField(n, v) => VarintIsToken(d, i, n, v);
      case Fixed64Field(n, bs) => FixedIsToken(d, i, n, 1, bs);
      case BytesField(n, bs) => BytesAreToken(d, i, n, bs);
      case Fixed32Field(n, bs) => FixedIsToken(d, i, n, 5, bs);
      case GroupField(n, fs) =>
        AtSplit(d, i, Tag(n, 3) + EncodeAll(fs), Tag(n, 4));
        AtSplit(d, i, Tag(n, 3), EncodeAll(fs));
        TagRead(d, i, n, 3);
        FieldsFillGroup(d, i + |Tag(n, 3)|, fs, n);
    }
  }

  lemma {:induction false} FieldsFillGroup(d: Bytes, i: nat, fs: seq<Field>, n: nat)
    requires |d| <= MAX_INT && 1 <= n <= MAX_FIELD && (forall g <- fs :: WellFormed(g))
    requires At(d, i, EncodeAll(fs)) && At(d, i + |EncodeAll(fs)|, Tag(n, 4))
    ensures GroupEnd(d, i) == Ok(i + |EncodeAll(fs)| + |Tag(n, 4)|)
    decreases fs, 1
  {
    hide At, Bytes128, VarintAt, TokenAt;
    if fs == [] {
      TagRead(d, i, n, 4);
    } else {
      AtSplit(d, i, Encode(fs[0]), EncodeAll(fs[1..]));
      FieldIsElement(d, i, fs[0]);
      FieldsFillGroup(d, i + |Encode(fs[0])|, fs[1..], n);
      ElementOpensNoEnd(d, i);
    }
  }

  lemma ElementOpensNoEnd(d: Bytes, i: nat)
    requires |d| <= MAX_INT && ElementEnd(d, i).Ok?
    ensures i < |d| && TokenAt(d, i).Ok? && !TokenAt(d, i).value.kind.End?
    ensures GroupEnd(d, i) == GroupEnd(d, ElementEnd(d, i).value)
  {
  }

  // ---- an element inside longer bytes ---------------------------------------------------------

  /** A token that ends within some bytes is the same token where those bytes are the
      beginning of longer ones. */
  lemma TokenExtends(d: Bytes, i: nat, e: Bytes)
    requires i <= |d| && |e| <= MAX_INT && At(e, 0, d)
    requires TokenAt(d, i).Ok?
    ensures TokenAt(e, i) == TokenAt(d, i)
  {
    hide At, TokenBody;
    VarintEmbeds(d, i, e, 0);
    var tag := VarintAt(d, i);
    BodyExtends(d, tag.next, tag.value % 8, e);
  }

  lemma BodyExtends(d: Bytes, i: nat, wireType: nat, e: Bytes)
    requires i <= |d| && |e| <= MAX_INT && At(e, 0, d)
    requires TokenBody(d, i, wireType).Ok?
    ensures TokenBody(e, i, wireType) == TokenBody(d, i, wireType)
  {
    hide At, VarintAt;
    if wireType == 0 || wireType == 2 {
      VarintEmbeds(d, i, e, 0);
    }
  }

  lemma {:induction false} ElementExtends(d: Bytes, i: nat, e: Bytes)
    requires |e| <= MAX_INT && At(e, 0, d)
    requires ElementEnd(d, i).Ok?
    ensures ElementEnd(e, i) == ElementEnd(d, i)
    decreases Remaining(d, i), 0
  {
    TokenExtends(d, i, e);
    var t := TokenAt(d, i).value;
    if t.kind.Start? {
      GroupExtends(d, t.next, e);
    }
  }

  lemma {:induction false} GroupExtends(d: Bytes, i: nat, e: Bytes)
    requires |e| <= MAX_INT && At(e, 0, d)
    requires GroupEnd(d, i).Ok?
    ensures GroupEnd(e, i) == GroupEnd(d, i)
    decreases Remaining(d, i), 1
  {
    if TokenAt(d, i).Ok? && TokenAt(d, i).value.kind.End? {
      TokenExtends(d, i, e);
    } else {
      ElementExtends(d, i, e);
      TokenExtends(d, i, e);
      GroupExtends(d, ElementEnd(d, i).value, e);
    }
  }

  // ---- what is no element -----------------------------------------------------------------------

  /** A tag with a wire type that does not exist, an end tag, or a length of 2^63 and more
      begins no element, and neither does nothing. */
  lemma NoElement(d: Bytes, i: nat, w: Word)
    requires |d| <= MAX_INT && At(d, i, Bytes128(w))
    ensures w % 8 == 4 ==> ElementEnd(d, i) == Err(UnexpectedEndOfGroup)
    ensures w % 8 == 6 || w % 8 == 7 ==> ElementEnd(d, i) == Err(IllegalWireType)
  {
    hide At, Bytes128, VarintAt;
    VarintRoundTrip(d, i, w);
  }

  lemma LongElement(d: Bytes, i: nat, num: nat, len: Word)
    requires |d| <= MAX_INT && 1 <= num <= MAX_FIELD && At(d, i, Tag(num, 2) + Bytes128(len))
    ensures var j := i + |Tag(num, 2) + Bytes128(len)|;
            ElementEnd(d, i) == if j + len >= 0x8000_0000_0000_0000 then Err(InvalidLength) else Ok(j + len)
  {
    hide At, Bytes128, VarintAt;
    AtSplit(d, i, Tag(num, 2), Bytes128(len));
    TagRead(d, i, num, 2);
    VarintRoundTrip(d, i + |Tag(num, 2)|, len);
  }

  /** A group that is not closed before the bytes end. */
  lemma {:induction false} OpenGroup(d: Bytes, i: nat, fs: seq<Field>)
    requires |d| <= MAX_INT && (forall g <- fs :: WellFormed(g))
    requires At(d, i, EncodeAll(fs)) && i + |EncodeAll(fs)| == |d|
    ensures GroupEnd(d, i) == Err(UnexpectedEOF)
    decreases |fs|
  {
    hide At, VarintAt, TokenAt, ElementEnd, Encode;
    if fs != [] {
      AtSplit(d, i, Encode(fs[0]), EncodeAll(fs[1..]));
      FieldIsElement(d, i, fs[0]);
      OpenGroup(d, i + |Encode(fs[0])|, fs[1..]);
      ElementOpensNoEnd(d, i);
    }
  }

  lemma OpenGroupIsNoElement(d: Bytes, i: nat, num: nat, fs: seq<Field>)
    requires |d| <= MAX_INT && 1 <= num <= MAX_FIELD && (forall g <- fs :: WellFormed(g))
    requires At(d, i, Tag(num, 3) + EncodeAll(fs)) && i + |Tag(num, 3) + EncodeAll(fs)| == |d|
    ensures ElementEnd(d, i) == Err(UnexpectedEOF)
  {
    hide At, Bytes128, VarintAt, EncodeAll;
    AtSplit(d, i, Tag(num, 3), EncodeAll(fs));
    TagRead(d, i, num, 3);
    OpenGroup(d, i + |Tag(num, 3)|, fs);
  }
}
