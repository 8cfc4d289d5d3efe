/** The DNS wire format of internal/dnsresolver: names as sections 3.1 and 4.1.4 of RFC 1035
    define them, with compression pointers, and the messages made of them. */
module DnsWire {
  import opened Bytes
  import opened Options

  type Label = seq<Byte>

  const DOT: int := 46
  const MAX_JUMPS: int := 10
  const MAX_LABEL: int := 63

  // ------------------------------------------------------------------------ names

  function Pointer(msg: seq<Byte>, offset: nat): nat
    requires offset + 1 < |msg| && msg[offset] >= 192
  {
    var high: int := msg[offset];
    (high - 192) * 256 + msg[offset + 1]
  }

  /** The labels of the name at an offset, following at most ten pointers in all. */
  function Name(msg: seq<Byte>, offset: nat, jumps: nat): Option<seq<Label>>
    requires jumps <= MAX_JUMPS
    decreases MAX_JUMPS - jumps, if offset < |msg| then |msg| - offset else 0
  {
    if offset >= |msg| then None
    else
      var n := msg[offset];
      if n == 0 then Some([])
      else if n >= 192 then
        if offset + 1 >= |msg| || jumps >= MAX_JUMPS then None else Name(msg, Pointer(msg, offset), jumps + 1)
      else if n > MAX_LABEL || offset + 1 + n > |msg| then None
      else
        var rest := Name(msg, offset + 1 + n, jumps);
        if rest.None? then None else Some([msg[offset + 1..offset + 1 + n]] + rest.value)
  }

  /** Where the name ends in place: after its zero octet or its first pointer. */
  function NameEnd(msg: seq<Byte>, offset: nat): nat
    decreases if offset < |msg| then |msg| - offset else 0
  {
    if offset >= |msg| then offset
    else if msg[offset] == 0 then offset + 1
    else if msg[offset] >= 192 then offset + 2
    else NameEnd(msg, offset + 1 + msg[offset])
  }

  function JoinDots(labels: seq<Label>): seq<Byte> {
    if labels == [] then [] else if |labels| == 1 then labels[0] else labels[0] + [DOT] + JoinDots(labels[1..])
  }

  function Prepend(labels: seq<Label>, rest: Option<seq<Label>>): Option<seq<Label>> {
    if rest.None? then None else Some(labels + rest.value)
  }

  /** decodeName follows the definition, whatever the bytes, and reads nothing out of bounds. */
  method DecodeName(msg: seq<Byte>, offset: nat) returns (r: Option<(seq<Byte>, nat)>)
    ensures Name(msg, offset, 0).None? ==> r.None?
    ensures Name(msg, offset, 0).Some? ==> r == Some((JoinDots(Name(msg, offset, 0).value), NameEnd(msg, offset)))
  {
    var labels: seq<Label> := [];
    var current, end, jumped, jumps := offset, offset, false, 0;
    assert Name(msg, offset, 0).Some? ==> [] + Name(msg, offset, 0).value == Name(msg, offset, 0).value;
    while true
      invariant 0 <= jumps <= MAX_JUMPS && 0 <= current
      invariant Name(msg, offset, 0) == Prepend(labels, Name(msg, current, jumps))
      invariant NameEnd(msg, offset) == if jumped then end else NameEnd(msg, current)
      decreases MAX_JUMPS - jumps, |msg| - current
    {
      if current >= |msg| { return None; }
      var length := msg[current];
      if length == 0 {
        current := current + 1;
        if !jumped { end := current; }
        break;
      }
      if length >= 192 {
        if current + 1 >= |msg| { return None; }
        if jumps >= MAX_JUMPS { return None; }
        var pointer := Pointer(msg, current);
        if !jumped { end, jumped := current + 2, true; }
        current, jumps := pointer, jumps + 1;
        continue;
      }
      if length > MAX_LABEL { return None; }
      if current + 1 + length > |msg| { return None; }
      NextLabel(labels, msg[current + 1..current + 1 + length], Name(msg, current + 1 + length, jumps));
      labels := labels + [msg[current + 1..current + 1 + length]];
      current := current + 1 + length;
      if !jumped { end := current; }
    }
    assert labels + [] == labels;
    return Some((JoinDots(labels), end));
  }

  lemma NextLabel(labels: seq<Label>, next: Label, rest: Option<seq<Label>>)
    ensures Prepend(labels, if rest.None? then None else Some([next] + rest.value)) == Prepend(labels + [next], rest)
  {
    if rest.Some? { assert labels + ([next] + rest.value) == (labels + [next]) + rest.value; }
  }

  // ---------------------------------------------------------------------- encoding

  /** strings.Trim(domain, "."). */
  function TrimDots(s: seq<Byte>): seq<Byte>
    decreases |s|
  {
    if s == [] then []
    else if s[0] == DOT then TrimDots(s[1..])
    else if s[|s| - 1] == DOT then TrimDots(s[..|s| - 1])
    else s
  }

  function FirstDot(s: seq<Byte>): (n: nat)
    ensures n <= |s| && (n < |s| ==> s[n] == DOT) && DOT !in s[..n]
  {
    if s == [] || s[0] == DOT then 0
    else
      var n := FirstDot(s[1..]);
      assert s[..n + 1] == [s[0]] + s[1..][..n];
      n + 1
  }

  /** strings.Split(s, "."). */
  function SplitDots(s: seq<Byte>): (labels: seq<Label>)
    ensures labels != []
    decreases |s|
  {
    if FirstDot(s) == |s| then [s] else [s[..FirstDot(s)]] + SplitDots(s[FirstDot(s) + 1..])
  }

  function SplitDomain(domain: seq<Byte>): seq<Label> {
    if TrimDots(domain) == [] then [] else SplitDots(TrimDots(domain))
  }

  lemma {:induction false} JoinSplitDots(s: seq<Byte>)
    ensures JoinDots(SplitDots(s)) == s
    decreases |s|
  {
    hide FirstDot;
    var n := FirstDot(s);
    if n < |s| {
      var rest := SplitDots(s[n + 1..]);
      JoinSplitDots(s[n + 1..]);
      assert SplitDots(s)[1..] == rest;
      assert s == s[..n] + [DOT] + s[n + 1..];
    }
  }

  predicate GoodLabel(l: Label) { 0 < |l| <= MAX_LABEL }

  predicate GoodLabels(labels: seq<Label>) { forall i :: 0 <= i < |labels| ==> GoodLabel(labels[i]) }

  function EncodeLabels(labels: seq<Label>): seq<Byte>
    requires GoodLabels(labels)
  {
    if labels == [] then [] else [|labels[0]|] + labels[0] + EncodeLabels(labels[1..])
  }

  /** A whole name: its labels and the zero octet. */
  function WireName(labels: seq<Label>): seq<Byte>
    requires GoodLabels(labels)
  {
    EncodeLabels(labels) + [0]
  }

  lemma {:induction false} EncodeLast(labels: seq<Label>, last: Label)
    requires GoodLabels(labels) && GoodLabel(last)
    ensures EncodeLabels(labels + [last]) == EncodeLabels(labels) + ([|last|] + last)
    decreases |labels|
  {
    if labels == [] {
      assert labels + [last] == [last] && [last][1..] == [];
    } else {
      assert (labels + [last])[1..] == labels[1..] + [last] && (labels + [last])[0] == labels[0];
      EncodeLast(labels[1..], last);
    }
  }

  function WireQuestion(labels: seq<Label>, qtype: nat, qclass: nat): seq<Byte>
    requires GoodLabels(labels)
  {
    WireName(labels) + (BigEndian(qtype, 2) + BigEndian(qclass, 2))
  }

  method EncodeQuestion(domain: seq<Byte>, qtype: nat, qclass: nat) returns (r: Option<seq<Byte>>)
    requires qtype < 0x1_0000 && qclass < 0x1_0000
    ensures r.Some? <==> GoodLabels(SplitDomain(domain))
    ensures r.Some? ==> r.value == WireQuestion(SplitDomain(domain), qtype, qclass)
  {
    var labels := SplitDomain(domain);
    var buf: seq<Byte> := [];
    for i := 0 to |labels|
      invariant GoodLabels(labels[..i]) && buf == EncodeLabels(labels[..i])
    {
      if |labels[i]| == 0 || |labels[i]| > MAX_LABEL { return None; }
      EncodeLast(labels[..i], labels[i]);
      assert labels[..i + 1] == labels[..i] + [labels[i]];
      buf := buf + ([|labels[i]|] + labels[i]);
    }
    assert labels[..|labels|] == labels;
    buf := buf + [0];
    buf := buf + BigEndian(qtype, 2);
    buf := buf + BigEndian(qclass, 2);
    return Some(buf);
  }

  lemma LabelFirst(pre: seq<Byte>, l: Label, tail: seq<Byte>, jumps: nat)
    requires GoodLabel(l) && jumps <= MAX_JUMPS
    ensures var msg := pre + ([|l|] + l) + tail; var next := |pre| + 1 + |l|;
      Name(msg, |pre|, jumps) == Prepend([l], Name(msg, next, jumps)) && NameEnd(msg, |pre|) == NameEnd(msg, next)
  {
    var msg := pre + ([|l|] + l) + tail;
    assert msg[|pre|] == |l| && msg[|pre| + 1..|pre| + 1 + |l|] == l;
  }

  /** Encoded labels are read wherever they stand, before whatever name follows them. */
  lemma {:induction false} LabelsFirst(pre: seq<Byte>, labels: seq<Label>, tail: seq<Byte>, jumps: nat)
    requires GoodLabels(labels) && jumps <= MAX_JUMPS
    ensures var msg := pre + EncodeLabels(labels) + tail; var next := |pre| + |EncodeLabels(labels)|;
      Name(msg, |pre|, jumps) == Prepend(labels, Name(msg, next, jumps)) && NameEnd(msg, |pre|) == NameEnd(msg, next)
    decreases |labels|
  {
    hide Name, NameEnd;
    var msg := pre + EncodeLabels(labels) + tail;
    var rest := Name(msg, |pre| + |EncodeLabels(labels)|, jumps);
    if labels == [] {
      assert rest.Some? ==> [] + rest.value == rest.value;
      assert msg == pre + tail;
    } else {
      var l, others := labels[0], labels[1..];
      var head := [|l|] + l;
      assert msg == pre + head + (EncodeLabels(others) + tail);
      LabelFirst(pre, l, EncodeLabels(others) + tail, jumps);
      assert msg == (pre + head) + EncodeLabels(others) + tail;
      LabelsFirst(pre + head, others, tail, jumps);
      Prepended(l, others, rest);
      assert labels == [l] + others;
    }
  }

  lemma Prepended(l: Label, labels: seq<Label>, name: Option<seq<Label>>)
    ensures Prepend([l] + labels, name) == Prepend([l], Prepend(labels, name))
  {
    if name.Some? { assert ([l] + labels) + name.value == [l] + (labels + name.value); }
  }

  /** An encoded name is decoded wherever it stands. */
  lemma DecodesEncoded(pre: seq<Byte>, labels: seq<Label>, post: seq<Byte>, jumps: nat)
    requires GoodLabels(labels) && jumps <= MAX_JUMPS
    ensures var msg := pre + WireName(labels) + post;
      Name(msg, |pre|, jumps) == Some(labels) && NameEnd(msg, |pre|) == |pre| + |WireName(labels)|
  {
    var msg := pre + WireName(labels) + post;
    assert msg == pre + EncodeLabels(labels) + ([0] + post);
    LabelsFirst(pre, labels, [0] + post, jumps);
    assert msg[|pre| + |EncodeLabels(labels)|] == 0 && labels + [] == labels;
  }

  /** decodeName on the output of encodeQuestion: the dotted name back, and the offset of the
      type field. */
  lemma {:induction false} QuestionRoundTrip(domain: seq<Byte>, qtype: nat, qclass: nat)
    requires GoodLabels(SplitDomain(domain))
    ensures var buf := WireQuestion(SplitDomain(domain), qtype, qclass);
      && Name(buf, 0, 0) == Some(SplitDomain(domain)) && JoinDots(SplitDomain(domain)) == TrimDots(domain)
      && NameEnd(buf, 0) == |buf| - 4
  {
    var labels, post := SplitDomain(domain), BigEndian(qtype, 2) + BigEndian(qclass, 2);
    assert WireQuestion(labels, qtype, qclass) == [] + WireName(labels) + post;
    DecodesEncoded([], labels, post, 0);
    if labels != [] { JoinSplitDots(TrimDots(domain)); }
  }

  /** More jumps already made never turn a bad name into a good or a different one. */
  lemma {:induction false} FewerJumps(msg: seq<Byte>, offset: nat, i: nat, j: nat)
    requires i <= j <= MAX_JUMPS && Name(msg, offset, j).Some?
    ensures Name(msg, offset, i) == Name(msg, offset, j)
    decreases MAX_JUMPS - j, if offset < |msg| then |msg| - offset else 0
  {
    var n := msg[offset];
    if n >= 192 {
      FewerJumps(msg, Pointer(msg, offset), i + 1, j + 1);
    } else if n > 0 {
      FewerJumps(msg, offset + 1 + n, i, j);
    }
  }

  /** The message spells the labels from the offset on, through the given number of pointers:
      labels of at most 63 octets, then a zero octet or a pointer to where the rest is spelled. */
  predicate Spells(msg: seq<Byte>, offset: nat, labels: seq<Label>, pointers: nat)
    decreases pointers, |labels|
  {
    && offset < |msg|
    && var n := msg[offset];
       if n == 0 then labels == [] && pointers == 0
       else if n >= 192 then offset + 1 < |msg| && pointers > 0 && Spells(msg, Pointer(msg, offset), labels, pointers - 1)
       else
         && n <= MAX_LABEL && offset + 1 + n <= |msg| && labels != [] && labels[0] == msg[offset + 1..offset + 1 + n]
         && Spells(msg, offset + 1 + n, labels[1..], pointers)
  }

  lemma LabelSpells(msg: seq<Byte>, pre: seq<Byte>, l: Label, tail: seq<Byte>, others: seq<Label>, next: nat, pointers: nat)
    requires GoodLabel(l) && msg == pre + ([|l|] + l) + tail && next == |pre| + 1 + |l| && Spells(msg, next, others, pointers)
    ensures Spells(msg, |pre|, [l] + others, pointers) && NameEnd(msg, |pre|) == NameEnd(msg, next)
  {
    assert msg[|pre|] == |l| && msg[|pre| + 1..|pre| + 1 + |l|] == l;
    assert ([l] + others)[1..] == others;
  }

  /** Labels before a place where the rest is spelled spell the labels and the rest. */
  lemma {:induction false} LabelsSpell(msg: seq<Byte>, pre: seq<Byte>, labels: seq<Label>, tail: seq<Byte>, rest: seq<Label>, next: nat, pointers: nat)
    requires GoodLabels(labels) && msg == pre + EncodeLabels(labels) + tail
    requires next == |pre| + |EncodeLabels(labels)| && Spells(msg, next, rest, pointers)
    ensures Spells(msg, |pre|, labels + rest, pointers) && NameEnd(msg, |pre|) == NameEnd(msg, next)
    decreases |labels|
  {
    hide Spells, NameEnd;
    if labels == [] {
      assert labels + rest == rest && next == |pre|;
    } else {
      var l, others := labels[0], labels[1..];
      var head := [|l|] + l;
      assert msg == (pre + head) + EncodeLabels(others) + tail;
      LabelsSpell(msg, pre + head, others, tail, rest, next, pointers);
      assert msg == pre + head + (EncodeLabels(others) + tail);
      LabelSpells(msg, pre, l, EncodeLabels(others) + tail, others + rest, |pre + head|, pointers);
      assert [l] + (others + rest) == labels + rest;
    }
  }

  /** Labels and a zero octet spell the labels. */
  lemma PlainName(msg: seq<Byte>, pre: seq<Byte>, labels: seq<Label>, post: seq<Byte>)
    requires GoodLabels(labels) && msg == pre + EncodeLabels(labels) + ([0] + post)
    ensures Spells(msg, |pre|, labels, 0) && NameEnd(msg, |pre|) == |pre| + |EncodeLabels(labels)| + 1
  {
    hide EncodeLabels;
    var next := |pre| + |EncodeLabels(labels)|;
    assert msg[next] == 0;
    LabelsSpell(msg, pre, labels, [0] + post, [], next, 0);
    assert labels + [] == labels;
  }

  /** Labels and a pointer spell the labels and what is spelled where it points, through one
      pointer more; the name ends in place after the pointer. */
  lemma CompressedName(msg: seq<Byte>, pre: seq<Byte>, labels: seq<Label>, high: Byte, low: Byte, post: seq<Byte>,
                       at: nat, rest: seq<Label>, pointers: nat)
    requires GoodLabels(labels) && msg == pre + EncodeLabels(labels) + ([high, low] + post)
    requires high >= 192 && at == (high - 192) * 256 + low && Spells(msg, at, rest, pointers)
    ensures Spells(msg, |pre|, labels + rest, pointers + 1) && NameEnd(msg, |pre|) == |pre| + |EncodeLabels(labels)| + 2
  {
    hide EncodeLabels;
    var next := |pre| + |EncodeLabels(labels)|;
    PointerSpells(msg, pre + EncodeLabels(labels), high, low, post, next, at, rest, pointers);
    LabelsSpell(msg, pre, labels, [high, low] + post, rest, next, pointers + 1);
  }

  lemma PointerSpells(msg: seq<Byte>, pre: seq<Byte>, high: Byte, low: Byte, post: seq<Byte>, next: nat, at: nat, rest: seq<Label>, pointers: nat)
    requires msg == pre + ([high, low] + post) && next == |pre|
    requires high >= 192 && at == (high - 192) * 256 + low && Spells(msg, at, rest, pointers)
    ensures Spells(msg, next, rest, pointers + 1) && NameEnd(msg, next) == next + 2
  {
    assert msg[next] == high && msg[next + 1] == low;
    assert Pointer(msg, next) == at;
  }

  /** What is spelled through no more pointers than are left is read. */
  lemma {:induction false} SpelledIsRead(msg: seq<Byte>, offset: nat, labels: seq<Label>, pointers: nat, jumps: nat)
    requires Spells(msg, offset, labels, pointers) && pointers + jumps <= MAX_JUMPS
    ensures Name(msg, offset, jumps) == Some(labels)
    decreases pointers, |labels|
  {
    var n := msg[offset];
    if n >= 192 {
      SpelledIsRead(msg, Pointer(msg, offset), labels, pointers - 1, jumps + 1);
    } else if n > 0 {
      SpelledIsRead(msg, offset + 1 + n, labels[1..], pointers, jumps);
      assert labels == [labels[0]] + labels[1..];
    }
  }

  /** And only that. */
  lemma {:induction false} ReadIsSpelled(msg: seq<Byte>, offset: nat, jumps: nat) returns (pointers: nat)
    requires jumps <= MAX_JUMPS && Name(msg, offset, jumps).Some?
    ensures pointers + jumps <= MAX_JUMPS && Spells(msg, offset, Name(msg, offset, jumps).value, pointers)
    decreases MAX_JUMPS - jumps, if offset < |msg| then |msg| - offset else 0
  {
    var n := msg[offset];
    if n >= 192 {
      pointers := ReadIsSpelled(msg, Pointer(msg, offset), jumps + 1);
      pointers := pointers + 1;
    } else if n > 0 {
      pointers := ReadIsSpelled(msg, offset + 1 + n, jumps);
      var labels := Name(msg, offset, jumps).value;
      assert labels[1..] == Name(msg, offset + 1 + n, jumps).value;
    } else {
      pointers := 0;
    }
  }

  ghost predicate Spelled(msg: seq<Byte>, offset: nat, labels: seq<Label>) {
    exists p: nat {:trigger Spells(msg, offset, labels, p)} :: p <= MAX_JUMPS && Spells(msg, offset, labels, p)
  }

  /** A name is read exactly when it is spelled through at most ten pointers. */
  lemma ReadExactly(msg: seq<Byte>, offset: nat, labels: seq<Label>)
    ensures Name(msg, offset, 0) == Some(labels) <==> Spelled(msg, offset, labels)
  {
    hide Spells, Name;
    if Name(msg, offset, 0) == Some(labels) { var p := ReadIsSpelled(msg, offset, 0); }
    if Spelled(msg, offset, labels) {
      var p: nat :| p <= MAX_JUMPS && Spells(msg, offset, labels, p);
      SpelledIsRead(msg, offset, labels, p, 0);
    }
  }

  // ---------------------------------------------------------------------- messages

  datatype Record = Record(name: seq<Byte>, rtype: nat, rclass: nat, ttl: nat, data: Data)

  datatype Data = NoData | Address(ip: seq<Byte>) | Target(name: seq<Byte>) | Raw(rdata: seq<Byte>)

  datatype Response = Response(id: nat, flags: nat, rcode: nat, answers: seq<Record>, authorities: seq<Record>, additionals: seq<Record>)

  datatype Parsed = Invalid | IdMismatch | Good(response: Response) | Bad(response: Response, rcode: nat)

  const TYPE_A: int := 1
  const TYPE_NS: int := 2
  const TYPE_CNAME: int := 5
  const TYPE_AAAA: int := 28

  /** The data of a record that takes up msg[start..end]. */
  function DataAt(msg: seq<Byte>, rtype: nat, start: nat, end: nat): Data
    requires start <= end <= |msg|
  {
    if rtype == TYPE_A then if end - start == 4 then Address(msg[start..end]) else NoData
    else if rtype == TYPE_AAAA then if end - start == 16 then Address(msg[start..end]) else NoData
    else if rtype == TYPE_CNAME || rtype == TYPE_NS then
      if Name(msg, start, 0).Some? then Target(JoinDots(Name(msg, start, 0).value)) else NoData
    else Raw(msg[start..end])
  }

  /** The resource record at an offset (RFC 1035 section 4.1.3) and where it ends; it lies
      wholly inside the message and takes eleven bytes at least. */
  function RecordAt(msg: seq<Byte>, offset: nat): (r: Option<(Record, nat)>)
    ensures r.Some? ==> offset + 11 <= r.value.1 <= |msg|
  {
    if Name(msg, offset, 0).None? then None
    else
      NameEndAfter(msg, offset);
      var n := NameEnd(msg, offset);
      if n + 10 > |msg| || n + 10 + Number(msg[n + 8..n + 10]) > |msg| then None
      else
        var end, rtype := n + 10 + Number(msg[n + 8..n + 10]), Number(msg[n..n + 2]);
        Some((Record(JoinDots(Name(msg, offset, 0).value), rtype, Number(msg[n + 2..n + 4]), Number(msg[n + 4..n + 8]),
                     DataAt(msg, rtype, n + 10, end)), end))
  }

  /** count records one after the other. */
  function RecordsAt(msg: seq<Byte>, offset: nat, count: nat): (r: Option<(seq<Record>, nat)>)
    ensures r.Some? ==> |r.value.0| == count && offset + 11 * count <= r.value.1 && (count > 0 ==> r.value.1 <= |msg|)
  {
    if count == 0 then Some(([], offset))
    else
      var before := RecordsAt(msg, offset, count - 1);
      if before.None? || RecordAt(msg, before.value.1).None? then None
      else Some((before.value.0 + [RecordAt(msg, before.value.1).value.0], RecordAt(msg, before.value.1).value.1))
  }

  /** Where count questions end. */
  function QuestionsEnd(msg: seq<Byte>, offset: nat, count: nat): (r: Option<nat>)
    ensures r.Some? ==> r.value >= offset
  {
    if count == 0 then Some(offset)
    else
      var before := QuestionsEnd(msg, offset, count - 1);
      if before.None? || Name(msg, before.value, 0).None? then None
      else
        NameEndAfter(msg, before.value);
        Some(NameEnd(msg, before.value) + 4)
  }

  datatype Sections = Sections(answers: seq<Record>, authorities: seq<Record>, additionals: seq<Record>)

  /** The three lists of records behind the header and the questions, as many as it counts. */
  function SectionsOf(msg: seq<Byte>): (r: Option<Sections>)
    requires |msg| >= 12
    ensures r.Some? ==> |r.value.answers| == Number(msg[6..8]) && |r.value.authorities| == Number(msg[8..10])
    ensures r.Some? ==> |r.value.additionals| == Number(msg[10..12])
    ensures r.Some? ==> Fits(msg, |r.value.answers| + |r.value.authorities| + |r.value.additionals|)
  {
    var q := QuestionsEnd(msg, 12, Number(msg[4..6]));
    if q.None? then None
    else
      var an := RecordsAt(msg, q.value, Number(msg[6..8]));
      if an.None? then None
      else
        var ns := RecordsAt(msg, an.value.1, Number(msg[8..10]));
        if ns.None? then None
        else
          var ar := RecordsAt(msg, ns.value.1, Number(msg[10..12]));
          if ar.None? then None else Some(Sections(an.value.0, ns.value.0, ar.value.0))
  }

  /** A record takes eleven bytes at least. */
  predicate Fits(msg: seq<Byte>, records: nat) { records == 0 || 12 + 11 * records <= |msg| }

  lemma {:induction false} NameEndAfter(msg: seq<Byte>, offset: nat)
    requires offset < |msg|
    ensures NameEnd(msg, offset) > offset
    decreases |msg| - offset
  {
    if 0 < msg[offset] < 192 && offset + 1 + msg[offset] < |msg| { NameEndAfter(msg, offset + 1 + msg[offset]); }
  }

  method ParseRR(msg: seq<Byte>, offset: nat) returns (r: Option<(Record, nat)>)
    ensures r == RecordAt(msg, offset)
  {
    var name := DecodeName(msg, offset);
    if name.None? { return None; }
    var n := name.value.1;
    if n + 10 > |msg| { return None; }
    var rtype, rclass, ttl := Number(msg[n..n + 2]), Number(msg[n + 2..n + 4]), Number(msg[n + 4..n + 8]);
    var length := Number(msg[n + 8..n + 10]);
    if n + 10 + length > |msg| { return None; }
    var rdata := msg[n + 10..n + 10 + length];
    var data := NoData;
    if rtype == TYPE_A {
      if |rdata| == 4 { data := Address(rdata); }
    } else if rtype == TYPE_AAAA {
      if |rdata| == 16 { data := Address(rdata); }
    } else if rtype == TYPE_CNAME || rtype == TYPE_NS {
      var target := DecodeName(msg, n + 10);
      if target.Some? { data := Target(target.value.0); }
    } else {
      data := Raw(rdata);
    }
    return Some((Record(name.value.0, rtype, rclass, ttl, data), n + 10 + length));
  }

  method ParseRRs(msg: seq<Byte>, offset0: nat, count: nat) returns (r: Option<(seq<Record>, nat)>)
    ensures r == RecordsAt(msg, offset0, count)
  {
    hide RecordAt;
    var records: seq<Record> := [];
    var offset := offset0;
    for i := 0 to count
      invariant RecordsAt(msg, offset0, i) == Some((records, offset))
    {
      var rr := ParseRR(msg, offset);
      if rr.None? {
        NoMoreRecords(msg, offset0, i + 1, count);
        return None;
      }
      records := records + [rr.value.0];
      offset := rr.value.1;
    }
    return Some((records, offset));
  }

  lemma {:induction false} NoMoreRecords(msg: seq<Byte>, offset: nat, i: nat, count: nat)
    requires i <= count && RecordsAt(msg, offset, i).None?
    ensures RecordsAt(msg, offset, count).None?
    decreases count
  {
    if i < count { NoMoreRecords(msg, offset, i, count - 1); }
  }

  method SkipQuestions(msg: seq<Byte>, offset0: nat, count: nat) returns (r: Option<nat>)
    ensures r == QuestionsEnd(msg, offset0, count)
  {
    var offset := offset0;
    for i := 0 to count
      invariant QuestionsEnd(msg, offset0, i) == Some(offset)
    {
      var name := DecodeName(msg, offset);
      if name.None? {
        NoMoreQuestions(msg, offset0, i + 1, count);
        return None;
      }
      offset := name.value.1 + 4;
    }
    return Some(offset);
  }

  lemma {:induction false} NoMoreQuestions(msg: seq<Byte>, offset: nat, i: nat, count: nat)
    requires i <= count && QuestionsEnd(msg, offset, i).None?
    ensures QuestionsEnd(msg, offset, count).None?
    decreases count
  {
    if i < count { NoMoreQuestions(msg, offset, i, count - 1); }
  }

  /** Invalid exactly when the bytes are no message; otherwise the records that are in it. */
  method ParseResponse(msg: seq<Byte>, expectedID: nat) returns (r: Parsed)
    ensures r.IdMismatch? <==> |msg| >= 12 && Number(msg[0..2]) != expectedID
    ensures r.Good? || r.Bad? <==> |msg| >= 12 && Number(msg[0..2]) == expectedID && SectionsOf(msg).Some?
    ensures r.Good? || r.Bad? ==>
      var s, flags := SectionsOf(msg).value, Number(msg[2..4]);
      r.response == Response(expectedID, flags, flags % 16, s.answers, s.authorities, s.additionals)
    ensures r.Good? ==> r.response.rcode == 0
    ensures r.Bad? ==> r.rcode == r.response.rcode != 0
  {
    if |msg| < 12 { return Invalid; }
    var id, flags := Number(msg[0..2]), Number(msg[2..4]);
    var qdCount, anCount, nsCount, arCount := Number(msg[4..6]), Number(msg[6..8]), Number(msg[8..10]), Number(msg[10..12]);
    var rcode := flags % 16;
    if id != expectedID { return IdMismatch; }
    var offset := SkipQuestions(msg, 12, qdCount);
    if offset.None? { return Invalid; }
    var answers := ParseRRs(msg, offset.value, anCount);
    if answers.None? { return Invalid; }
    var authorities := ParseRRs(msg, answers.value.1, nsCount);
    if authorities.None? { return Invalid; }
    var additionals := ParseRRs(msg, authorities.value.1, arCount);
    if additionals.None? { return Invalid; }
    var resp := Response(id, flags, rcode, answers.value.0, authorities.value.0, additionals.value.0);
    if rcode != 0 { return Bad(resp, rcode); }
    return Good(resp);
  }
}
