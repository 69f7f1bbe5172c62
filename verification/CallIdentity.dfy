/** The stable identity of one provider call: the length-prefixed name that deriveCallID hashes. */
module CallIdentity {
  import opened Wrappers
  import opened Texts
  import opened Operations

  const LIMIT := 0x1_0000_0000

  /** uint32(length) in big-endian order; the conversion drops higher bits. */
  function LengthPrefix(length: nat): (prefix: seq<Byte>)
    ensures |prefix| == 4
  {
    [(length / 0x100_0000 % 0x100) as Byte, (length / 0x1_0000 % 0x100) as Byte, (length / 0x100 % 0x100) as Byte,
      (length % 0x100) as Byte]
  }

  function ReadLength(prefix: seq<Byte>): nat
    requires |prefix| == 4
  {
    prefix[0] as int * 0x100_0000 + prefix[1] as int * 0x1_0000 + prefix[2] as int * 0x100 + prefix[3] as int
  }

  lemma LengthRoundTrip(length: nat)
    ensures ReadLength(LengthPrefix(length)) == length % LIMIT
    ensures var prefix := LengthPrefix(length);
      prefix[0] as int * 0x100_0000 + prefix[1] as int * 0x1_0000 + prefix[2] as int * 0x100 + prefix[3] as int ==
      length % LIMIT
  {
    var a, b, c := length / 0x100, length / 0x1_0000, length / 0x100_0000;
    assert length == a * 0x100 + length % 0x100;
    assert a == b * 0x100 + a % 0x100;
    assert b == c * 0x100 + b % 0x100;
    assert c == length / LIMIT * 0x100 + c % 0x100;
  }

  function Framed(field: seq<Byte>): seq<Byte>
  {
    LengthPrefix(|field|) + field
  }

  function Payload(fields: seq<seq<Byte>>): seq<Byte>
  {
    if fields == [] then [] else Framed(fields[0]) + Payload(fields[1..])
  }

  datatype CallName = CallName(flowID: seq<Byte>, stepExecutionID: seq<Byte>, connectorID: seq<Byte>,
      operationID: seq<Byte>)

  function Fields(name: CallName): seq<seq<Byte>>
  {
    [name.flowID, name.stepExecutionID, name.connectorID, name.operationID]
  }

  /** The loop of deriveCallID, before hashing. */
  method DerivePayload(name: CallName) returns (payload: seq<Byte>)
    ensures payload == Payload(Fields(name))
  {
    hide LengthPrefix, Fields;
    var fields := Fields(name);
    payload := [];
    assert fields[0..] == fields;
    for index := 0 to |fields|
      invariant payload + Payload(fields[index..]) == Payload(fields)
    {
      ghost var rest := Payload(fields[index + 1..]);
      assert fields[index..][1..] == fields[index + 1..];
      ConcatIsAssociative(payload, Framed(fields[index]), rest);
      ConcatIsAssociative(payload, LengthPrefix(|fields[index]|), fields[index]);
      payload := payload + LengthPrefix(|fields[index]|);
      payload := payload + fields[index];
    }
    assert fields[|fields|..] == [];
  }

  /** Reads count length-prefixed fields that fill the payload exactly. */
  function ReadFields(payload: seq<Byte>, count: nat): Option<seq<seq<Byte>>>
    decreases count
  {
    if count == 0 then if payload == [] then Some([]) else None
    else if |payload| < 4 || |payload| < 4 + ReadLength(payload[..4]) then None
    else
      var length := ReadLength(payload[..4]);
      var rest := ReadFields(payload[4 + length..], count - 1);
      if rest.None? then None else Some([payload[4..4 + length]] + rest.value)
  }

  ghost predicate FieldsFit(fields: seq<seq<Byte>>)
  {
    forall i :: 0 <= i < |fields| ==> |fields[i]| < LIMIT
  }

  /** Reading a framed field leaves the rest of the payload. */
  lemma ReadStep(first: seq<Byte>, rest: seq<Byte>, count: nat)
    requires |first| < LIMIT
    ensures var others := ReadFields(rest, count);
      ReadFields(Framed(first) + rest, count + 1) == if others.None? then None else Some([first] + others.value)
  {
    hide LengthPrefix, ReadLength;
    var payload := Framed(first) + rest;
    LengthRoundTrip(|first|);
    assert payload[..4] == LengthPrefix(|first|);
    assert payload[4..4 + |first|] == first && payload[4 + |first|..] == rest;
  }

  /** A payload whose lengths fit the prefix decodes to the fields it was made from. */
  lemma {:induction false} PayloadRoundTrip(fields: seq<seq<Byte>>)
    requires FieldsFit(fields)
    ensures ReadFields(Payload(fields), |fields|) == Some(fields)
  {
    if fields == [] {
    } else {
      PayloadRoundTrip(fields[1..]);
      ReadStep(fields[0], Payload(fields[1..]), |fields| - 1);
      hide ReadFields, Framed;
      assert fields == [fields[0]] + fields[1..];
    }
  }

  /** Distinct calls never share a hashed name. */
  lemma DistinctCallsHaveDistinctNames(left: CallName, right: CallName)
    requires FieldsFit(Fields(left)) && FieldsFit(Fields(right))
    ensures Payload(Fields(left)) == Payload(Fields(right)) <==> left == right
  {
    PayloadRoundTrip(Fields(left));
    PayloadRoundTrip(Fields(right));
    if Payload(Fields(left)) == Payload(Fields(right)) {
      assert Fields(left)[0] == Fields(right)[0] && Fields(left)[1] == Fields(right)[1];
      assert Fields(left)[2] == Fields(right)[2] && Fields(left)[3] == Fields(right)[3];
    }
  }

  // ----- The exact bound, for the calls that newCall accepts -----

  function Text(bytes: seq<Byte>): string
  {
    seq(|bytes|, i requires 0 <= i < |bytes| => bytes[i] as char)
  }

  /** A call that reaches deriveCallID: newCall refused empty IDs and invalid operations before. */
  predicate IsAccepted(name: CallName)
  {
    && name.flowID != [] && name.stepExecutionID != []
    && IsConnectorID(Text(name.connectorID)) && IsLowerCamel(Text(name.operationID))
  }

  /** An accepted call whose fields are shorter than limit. */
  predicate IsHashed(name: CallName, limit: nat)
  {
    && IsAccepted(name)
    && |name.flowID| < limit && |name.stepExecutionID| < limit
    && |name.connectorID| < limit && |name.operationID| < limit
  }

  lemma ByteWraps(part: nat, wraps: nat)
    ensures (part + 0x100 * wraps) % 0x100 == part % 0x100
  {
  }

  lemma LengthPrefixWraps(length: nat)
    ensures LengthPrefix(length + LIMIT) == LengthPrefix(length)
  {
    var a, b, c := length / 0x100, length / 0x1_0000, length / 0x100_0000;
    assert (length + LIMIT) / 0x100 == a + 0x100 * 0x1_0000;
    assert (length + LIMIT) / 0x1_0000 == b + 0x100 * 0x100;
    assert (length + LIMIT) / 0x100_0000 == c + 0x100 * 1;
    ByteWraps(length, 0x100_0000);
    ByteWraps(a, 0x1_0000);
    ByteWraps(b, 0x100);
    ByteWraps(c, 1);
  }

  /** Nonempty fields of at most LIMIT bytes: one prefix stands for one length. */
  lemma FramedCancels(left: seq<Byte>, right: seq<Byte>, leftRest: seq<Byte>, rightRest: seq<Byte>)
    requires 1 <= |left| <= LIMIT && 1 <= |right| <= LIMIT
    requires Framed(left) + leftRest == Framed(right) + rightRest
    ensures left == right && leftRest == rightRest
  {
    hide LengthPrefix, ReadLength;
    var leftText, rightText := Framed(left) + leftRest, Framed(right) + rightRest;
    assert leftText[..4] == LengthPrefix(|left|) && rightText[..4] == LengthPrefix(|right|);
    LengthRoundTrip(|left|);
    LengthRoundTrip(|right|);
    assert |left| == |right|;
    assert leftText[4..4 + |left|] == left && rightText[4..4 + |right|] == right;
    assert leftText[4 + |left|..] == leftRest && rightText[4 + |right|..] == rightRest;
  }

  lemma AcceptedFieldsCancel(left: CallName, right: CallName)
    requires IsHashed(left, LIMIT + 1) && IsHashed(right, LIMIT + 1)
    requires Payload(Fields(left)) == Payload(Fields(right))
    ensures left == right
  {
    PayloadOfFour(left);
    PayloadOfFour(right);
    hide Framed, Payload;
    var leftTail, rightTail :=
      Framed(left.connectorID) + Framed(left.operationID), Framed(right.connectorID) + Framed(right.operationID);
    FramedCancels(left.flowID, right.flowID, Framed(left.stepExecutionID) + leftTail,
      Framed(right.stepExecutionID) + rightTail);
    FramedCancels(left.stepExecutionID, right.stepExecutionID, leftTail, rightTail);
    FramedCancels(left.connectorID, right.connectorID, Framed(left.operationID), Framed(right.operationID));
    assert Framed(left.operationID) + [] == Framed(right.operationID) + [];
    FramedCancels(left.operationID, right.operationID, [], []);
  }

  /** A flow ID that is longer than LIMIT can hold what another call has in its step execution ID. */
  lemma LongFieldsCollide(flow: seq<Byte>, step: seq<Byte>, padding: seq<Byte>, connector: seq<Byte>,
      operation: seq<Byte>)
    requires |padding| == LIMIT - 4
    ensures var left := CallName(flow + LengthPrefix(|step|) + padding, step, connector, operation);
      var right := CallName(flow, padding + LengthPrefix(|step|) + step, connector, operation);
      left != right && Payload(Fields(left)) == Payload(Fields(right))
  {
    var left := CallName(flow + LengthPrefix(|step|) + padding, step, connector, operation);
    var right := CallName(flow, padding + LengthPrefix(|step|) + step, connector, operation);
    PayloadOfFour(left);
    PayloadOfFour(right);
    LengthPrefixWraps(|flow|);
    LengthPrefixWraps(|step|);
    assert |left.flowID| == |flow| + LIMIT && |right.stepExecutionID| == |step| + LIMIT;
    hide LengthPrefix, Payload, Fields;
    Regroup(LengthPrefix(|flow|), flow, LengthPrefix(|step|), padding, step, Framed(connector) + Framed(operation));
  }

  lemma Regroup(a: seq<Byte>, flow: seq<Byte>, b: seq<Byte>, padding: seq<Byte>, step: seq<Byte>, rest: seq<Byte>)
    ensures (a + (flow + b + padding)) + ((b + step) + rest) == (a + flow) + ((b + (padding + b + step)) + rest)
  {
  }

  const TWO_LETTERS: seq<Byte> := [97, 98]

  lemma TwoLettersAreIDs()
    ensures IsConnectorID(Text(TWO_LETTERS)) && IsLowerCamel(Text(TWO_LETTERS))
  {
    assert Text(TWO_LETTERS) == "ab";
  }

  ghost predicate NamesAreDistinct(limit: nat)
  {
    forall left, right | IsHashed(left, limit) && IsHashed(right, limit) &&
      Payload(Fields(left)) == Payload(Fields(right)) ::
      left == right
  }

  /** Accepted calls have distinct names exactly while their fields hold at most 2^32 bytes. */
  lemma DistinctExactlyBelow(limit: nat)
    ensures NamesAreDistinct(limit) <==> limit <= LIMIT + 1
  {
    hide Payload;
    if limit <= LIMIT + 1 {
      forall left, right | IsHashed(left, limit) && IsHashed(right, limit) &&
        Payload(Fields(left)) == Payload(Fields(right))
        ensures left == right
      {
        AcceptedFieldsCancel(left, right);
      }
    } else {
      var padding := seq(LIMIT - 4, i => 0 as Byte);
      TwoLettersAreIDs();
      LongFieldsCollide([0], [0], padding, TWO_LETTERS, TWO_LETTERS);
      var left := CallName([0] + LengthPrefix(1) + padding, [0], TWO_LETTERS, TWO_LETTERS);
      var right := CallName([0], padding + LengthPrefix(1) + [0], TWO_LETTERS, TWO_LETTERS);
      assert IsHashed(left, limit) && IsHashed(right, limit);
    }
  }

  lemma PayloadOfFour(name: CallName)
    ensures Payload(Fields(name)) ==
      Framed(name.flowID) + (Framed(name.stepExecutionID) + (Framed(name.connectorID) + Framed(name.operationID)))
  {
    var fields := Fields(name);
    assert fields[1..][1..] == fields[2..] && fields[2..][1..] == fields[3..] && fields[3..][1..] == [];
    hide Framed;
    assert Payload(fields[3..]) == Framed(name.operationID) + [];
    assert Payload(fields[2..]) == Framed(name.connectorID) + Payload(fields[3..]);
    assert Payload(fields[1..]) == Framed(name.stepExecutionID) + Payload(fields[2..]);
  }
}
