/** Uncompressed DNS names on the wire (section 3.1 of RFC 1035): the encoder of
    the seed corpus and the walker that measures the name opening a buffer. */
module DnsNames {
  import opened MachineWords
  import opened Options

  type Label = seq<byte>

  /** The labels a name may hold: 1 to 63 bytes each. */
  predicate IsName(labels: seq<Label>) {
    labels == [] || (1 <= |labels[0]| <= 63 && IsName(labels[1..]))
  }

  /** Lengths the encoder can put in one byte. */
  predicate Encodable(labels: seq<Label>)
    ensures IsName(labels) ==> Encodable(labels)
  {
    labels == [] || (|labels[0]| < 256 && Encodable(labels[1..]))
  }

  function Prefixed(first: Label): seq<byte>
    requires |first| < 256
  {
    [|first|] + first
  }

  function Wire(labels: seq<Label>): seq<byte>
    requires Encodable(labels)
  {
    if labels == [] then [0] else Prefixed(labels[0]) + Wire(labels[1..])
  }

  /** None is the ValueError of a length that does not fit a byte. */
  method NameWire(labels: seq<Label>) returns (wire: Option<seq<byte>>)
    ensures wire.Some? <==> Encodable(labels)
    ensures wire.Some? ==> wire.value == Wire(labels)
  {
    var out: seq<byte> := [];
    for i := 0 to |labels|
      invariant Encodable(labels) <==> Encodable(labels[i..])
      invariant Encodable(labels) ==> out + Wire(labels[i..]) == Wire(labels)
    {
      if |labels[i]| > 255 {
        return None;
      }
      assert labels[i..][1..] == labels[i + 1..];
      out := out + Prefixed(labels[i]);
    }
    wire := Some(out + [0]);
  }

  /** What the walk finds from the front of `buf`: a label may not overrun it. */
  function NameLen(buf: seq<byte>): (n: Option<nat>)
    ensures n.Some? ==> 1 <= n.value <= |buf|
  {
    if buf == [] then None
    else if buf[0] == 0 then Some(1)
    else if buf[0] <= 63 && 1 + buf[0] <= |buf| then Shifted(NameLen(buf[1 + buf[0]..]), 1 + buf[0])
    else None
  }

  function Shifted(n: Option<nat>, start: nat): Option<nat> {
    match n
    case Some(k) => Some(k + start)
    case None => None
  }

  function WalkFrom(buf: seq<byte>, pos: nat): Option<nat>
    decreases |buf| + 64 - pos
  {
    if pos >= |buf| || buf[pos] > 63 then None
    else if buf[pos] == 0 then Some(pos + 1)
    else WalkFrom(buf, pos + 1 + buf[pos])
  }

  lemma {:induction false} WalkMeasuresRest(buf: seq<byte>, pos: nat)
    requires pos <= |buf|
    ensures WalkFrom(buf, pos) == Shifted(NameLen(buf[pos..]), pos)
    decreases |buf| - pos
  {
    if pos < |buf| && 1 <= buf[pos] <= 63 && pos + 1 + buf[pos] <= |buf| {
      assert buf[pos..][1 + buf[pos]..] == buf[pos + 1 + buf[pos]..];
      WalkMeasuresRest(buf, pos + 1 + buf[pos]);
    }
  }

  method UncompressedNameLen(buf: seq<byte>) returns (len: Option<nat>)
    ensures len == NameLen(buf)
  {
    WalkMeasuresRest(buf, 0);
    assert buf[0..] == buf;
    var pos := 0;
    while true
      invariant WalkFrom(buf, pos) == WalkFrom(buf, 0)
      decreases |buf| + 64 - pos
    {
      if pos >= |buf| {
        return None;
      }
      var octet := buf[pos];
      if octet == 0 {
        return Some(pos + 1);
      }
      if octet > 63 {
        return None;
      }
      pos := pos + 1 + octet;
    }
  }

  lemma LabelThenRest(first: Label, rest: seq<byte>)
    requires 1 <= |first| <= 63
    ensures NameLen(Prefixed(first) + rest) == Shifted(NameLen(rest), 1 + |first|)
  {
    assert (Prefixed(first) + rest)[1 + |first|..] == rest;
  }

  lemma WireStep(labels: seq<Label>, rest: seq<byte>)
    requires Encodable(labels) && labels != []
    ensures Wire(labels) + rest == Prefixed(labels[0]) + (Wire(labels[1..]) + rest)
    ensures |Wire(labels)| == 1 + |labels[0]| + |Wire(labels[1..])|
  {
  }

  /** Measuring what was encoded gives its length, whatever bytes follow. */
  lemma {:induction false} EncodedIsMeasured(labels: seq<Label>, rest: seq<byte>)
    requires IsName(labels)
    ensures NameLen(Wire(labels) + rest) == Some(|Wire(labels)|)
    decreases |labels|
  {
    if labels == [] {
      assert (Wire(labels) + rest)[0] == 0;
    } else {
      var tail := Wire(labels[1..]) + rest;
      EncodedIsMeasured(labels[1..], rest);
      WireStep(labels, rest);
      LabelThenRest(labels[0], tail);
    }
  }

  /** A measured prefix is the encoding of some name. */
  lemma {:induction false} MeasuredIsEncoded(buf: seq<byte>) returns (labels: seq<Label>)
    requires NameLen(buf).Some?
    ensures IsName(labels) && Wire(labels) == buf[..NameLen(buf).value]
  {
    if buf[0] == 0 {
      labels := [];
    } else {
      var first, rest := buf[1..1 + buf[0]], buf[1 + buf[0]..];
      var tail := MeasuredIsEncoded(rest);
      labels := [first] + tail;
      assert labels[1..] == tail;
      assert buf[..NameLen(buf).value] == Prefixed(first) + rest[..NameLen(rest).value];
    }
  }

  lemma SameFirstLabel(a: Label, b: Label, restA: seq<byte>, restB: seq<byte>)
    requires |a| < 256 && |b| < 256 && Prefixed(a) + restA == Prefixed(b) + restB
    ensures a == b && restA == restB
  {
    var bufA, bufB := Prefixed(a) + restA, Prefixed(b) + restB;
    assert bufA[0] == |a| && bufB[0] == |b|;
    assert a == bufA[1..1 + |a|] && b == bufB[1..1 + |b|];
    assert restA == bufA[1 + |a|..] && restB == bufB[1 + |b|..];
  }

  /** Names form a prefix code: bytes that open with a name open with only one. */
  lemma {:induction false} WireIsPrefixCode(a: seq<Label>, b: seq<Label>, restA: seq<byte>, restB: seq<byte>)
    requires IsName(a) && IsName(b) && Wire(a) + restA == Wire(b) + restB
    ensures a == b && restA == restB
    decreases |a|
  {
    var bufA, bufB := Wire(a) + restA, Wire(b) + restB;
    assert bufA[0] == (if a == [] then 0 else |a[0]|) && bufB[0] == (if b == [] then 0 else |b[0]|);
    if a == [] {
      assert restA == bufA[1..] && restB == bufB[1..];
    } else {
      WireStep(a, restA);
      WireStep(b, restB);
      SameFirstLabel(a[0], b[0], Wire(a[1..]) + restA, Wire(b[1..]) + restB);
      WireIsPrefixCode(a[1..], b[1..], restA, restB);
      assert a == [a[0]] + a[1..] && b == [b[0]] + b[1..];
    }
  }

  ghost predicate Spells(labels: seq<Label>, bytes: seq<byte>) {
    IsName(labels) && Wire(labels) == bytes
  }

  lemma SpelledOnce(a: seq<Label>, b: seq<Label>, bytes: seq<byte>)
    requires Spells(a, bytes) && Spells(b, bytes)
    ensures a == b
  {
    WireIsPrefixCode(a, b, [], []);
  }

  lemma SpelledIsMeasured(labels: seq<Label>, buf: seq<byte>, n: nat)
    requires n <= |buf| && Spells(labels, buf[..n])
    ensures NameLen(buf) == Some(n)
  {
    EncodedIsMeasured(labels, buf[n..]);
    assert buf == Wire(labels) + buf[n..];
  }

  ghost predicate SpelledByOne(bytes: seq<byte>) {
    && (exists labels :: Spells(labels, bytes))
    && (forall a, b :: Spells(a, bytes) && Spells(b, bytes) ==> a == b)
  }

  /** The walk answers n exactly when the first n bytes are the encoding of a
      name, and then of one name only. */
  lemma MeasureExactly(buf: seq<byte>, n: nat)
    ensures NameLen(buf) == Some(n) <==> n <= |buf| && SpelledByOne(buf[..n])
    ensures NameLen(buf) == Some(n) <==> n <= |buf| && exists labels :: Spells(labels, buf[..n])
  {
    if n <= |buf| {
      forall a, b | Spells(a, buf[..n]) && Spells(b, buf[..n]) ensures a == b {
        SpelledOnce(a, b, buf[..n]);
      }
    }
    if NameLen(buf) == Some(n) {
      var labels := MeasuredIsEncoded(buf);
      assert Spells(labels, buf[..n]);
    }
    if n <= |buf| && exists labels :: Spells(labels, buf[..n]) {
      var labels :| Spells(labels, buf[..n]);
      SpelledIsMeasured(labels, buf, n);
    }
  }

  /** A name cut anywhere before its root label measures to nothing. */
  lemma {:induction false} TruncatedIsNone(labels: seq<Label>, n: nat)
    requires IsName(labels) && n < |Wire(labels)|
    ensures NameLen(Wire(labels)[..n]).None?
  {
    if NameLen(Wire(labels)[..n]).Some? {
      var shorter := MeasuredIsEncoded(Wire(labels)[..n]);
      var m := |Wire(shorter)|;
      assert Wire(shorter) + Wire(labels)[m..] == Wire(labels) + [];
      WireIsPrefixCode(shorter, labels, Wire(labels)[m..], []);
    }
  }

  /** A name on the wire: each label behind its length, then a zero. */
  lemma WireIsLabels(labels: seq<Label>)
    requires Encodable(labels)
    ensures if labels == [] then Wire(labels) == [0]
            else && |Wire(labels)| > |labels[0]|
                 && Wire(labels)[0] == |labels[0]| && Wire(labels)[1..1 + |labels[0]|] == labels[0]
                 && Wire(labels)[1 + |labels[0]|..] == Wire(labels[1..])
  {
  }
}
