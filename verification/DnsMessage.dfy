/** What a server sends, laid out as section 4 of RFC 1035 says, names compressed or not, and
    that the client's parser reads exactly that. */
module DnsMessage {
  import opened Bytes
  import opened Options
  import opened DnsWire

  // ------------------------------------------------------------------ names on the wire

  /** A pointer and the labels it stands for. */
  datatype Link = Link(at: nat, rest: seq<Label>)

  /** Labels, then the end of the name or a pointer to the rest of it. */
  datatype WireForm = WireForm(labels: seq<Label>, link: Option<Link>)

  function Full(f: WireForm): seq<Label> { if f.link.None? then f.labels else f.labels + f.link.value.rest }

  predicate GoodForm(f: WireForm) { GoodLabels(f.labels) && (f.link.Some? ==> f.link.value.at < 0x4000) }

  function Octets(f: WireForm): seq<Byte>
    requires GoodForm(f)
  {
    EncodeLabels(f.labels) + (if f.link.None? then [0] else [High(f.link.value.at), Low(f.link.value.at)])
  }

  /** The message spells the rest where the pointer points, through at most nine more pointers. */
  ghost predicate Linked(msg: seq<Byte>, f: WireForm) {
    f.link.Some? ==> exists p: nat :: p < MAX_JUMPS && Spells(msg, f.link.value.at, f.link.value.rest, p)
  }

  function High(at: nat): Byte
    requires at < 0x4000
  {
    192 + at / 256
  }

  function Low(at: nat): Byte { at % 256 }

  lemma PointerOctets(at: nat)
    requires at < 0x4000
    ensures High(at) >= 192 && (High(at) - 192) * 256 + Low(at) == at
  {
  }

  /** A name is spelled wherever it stands, in full. */
  lemma FormSpells(msg: seq<Byte>, pre: seq<Byte>, f: WireForm, post: seq<Byte>) returns (pointers: nat)
    requires GoodForm(f) && msg == pre + Octets(f) + post && Linked(msg, f)
    ensures pointers <= MAX_JUMPS && Spells(msg, |pre|, Full(f), pointers) && NameEnd(msg, |pre|) == |pre| + |Octets(f)|
  {
    hide NameEnd, EncodeLabels, Spells, High, Low;
    var labels := EncodeLabels(f.labels);
    if f.link.None? {
      Flatten(msg, pre, labels, [0], post);
      PlainName(msg, pre, f.labels, post);
      pointers := 0;
    } else {
      var link := f.link.value;
      PointerOctets(link.at);
      Flatten(msg, pre, labels, [High(link.at), Low(link.at)], post);
      var p: nat :| p < MAX_JUMPS && Spells(msg, link.at, link.rest, p);
      CompressedName(msg, pre, f.labels, High(link.at), Low(link.at), post, link.at, link.rest, p);
      pointers := p + 1;
    }
  }

  /** So it is read. */
  lemma FormReads(msg: seq<Byte>, pre: seq<Byte>, f: WireForm, post: seq<Byte>)
    requires GoodForm(f) && msg == pre + Octets(f) + post && Linked(msg, f)
    ensures Name(msg, |pre|, 0) == Some(Full(f)) && NameEnd(msg, |pre|) == |pre| + |Octets(f)|
  {
    hide Octets, Name, NameEnd, Spells, Linked;
    var p := FormSpells(msg, pre, f, post);
    SpelledIsRead(msg, |pre|, Full(f), p, 0);
  }

  // --------------------------------------------------------------------------- records

  /** A record to be sent: its owner's name and, for CNAME and NS, that of its target. */
  datatype Sent = Sent(owner: WireForm, rtype: nat, rclass: nat, ttl: nat, target: WireForm, bytes: seq<Byte>)

  predicate NamesTarget(rtype: nat) { rtype == TYPE_CNAME || rtype == TYPE_NS }

  function Payload(w: Sent): seq<Byte>
    requires GoodForm(w.target)
  {
    if NamesTarget(w.rtype) then Octets(w.target) else w.bytes
  }

  predicate Sendable(w: Sent) {
    && GoodForm(w.owner) && GoodForm(w.target)
    && w.rtype < 0x1_0000 && w.rclass < 0x1_0000 && w.ttl < 0x1_0000_0000 && |Payload(w)| < 0x1_0000
  }

  /** The fields between the owner's name and the data. */
  function Fixed(w: Sent): (s: seq<Byte>)
    requires Sendable(w)
    ensures |s| == 10
  {
    BigEndian(w.rtype, 2) + BigEndian(w.rclass, 2) + BigEndian(w.ttl, 4) + BigEndian(|Payload(w)|, 2)
  }

  function Wire(w: Sent): seq<Byte>
    requires Sendable(w)
  {
    Octets(w.owner) + (Fixed(w) + Payload(w))
  }

  /** What a record says. */
  function Said(w: Sent): Record
    requires Sendable(w)
  {
    Record(JoinDots(Full(w.owner)), w.rtype, w.rclass, w.ttl,
           if w.rtype == TYPE_A then if |w.bytes| == 4 then Address(w.bytes) else NoData
           else if w.rtype == TYPE_AAAA then if |w.bytes| == 16 then Address(w.bytes) else NoData
           else if NamesTarget(w.rtype) then Target(JoinDots(Full(w.target)))
           else Raw(w.bytes))
  }

  lemma FixedReads(w: Sent)
    requires Sendable(w)
    ensures var s := Fixed(w);
      Number(s[0..2]) == w.rtype && Number(s[2..4]) == w.rclass && Number(s[4..8]) == w.ttl && Number(s[8..10]) == |Payload(w)|
  {
    hide BigEndian, Number, Power;
    Powers();
    ReadsNumber(w.rtype, 2);
    ReadsNumber(w.rclass, 2);
    ReadsNumber(w.ttl, 4);
    ReadsNumber(|Payload(w)|, 2);
    var s := Fixed(w);
    assert s[0..2] == BigEndian(w.rtype, 2) && s[2..4] == BigEndian(w.rclass, 2);
    assert s[4..8] == BigEndian(w.ttl, 4) && s[8..10] == BigEndian(|Payload(w)|, 2);
  }

  /** The fixed fields of the record stand at n, and its data behind them. */
  predicate Stands(msg: seq<Byte>, n: nat, w: Sent)
    requires GoodForm(w.target)
  {
    && n + 10 + |Payload(w)| <= |msg|
    && Number(msg[n..n + 2]) == w.rtype && Number(msg[n + 2..n + 4]) == w.rclass && Number(msg[n + 4..n + 8]) == w.ttl
    && Number(msg[n + 8..n + 10]) == |Payload(w)|
  }

  lemma FixedAt(msg: seq<Byte>, pre: seq<Byte>, w: Sent, post: seq<Byte>, n: nat)
    requires Sendable(w) && msg == pre + Fixed(w) + post && |Payload(w)| <= |post| && n == |pre|
    ensures Stands(msg, n, w)
  {
    hide Number, Fixed, Payload;
    FixedReads(w);
    Middle(pre, Fixed(w), post, 0, 2);
    Middle(pre, Fixed(w), post, 2, 4);
    Middle(pre, Fixed(w), post, 4, 8);
    Middle(pre, Fixed(w), post, 8, 10);
  }

  ghost predicate RecordLinked(msg: seq<Byte>, w: Sent) { Linked(msg, w.owner) && Linked(msg, w.target) }

  lemma Opened(msg: seq<Byte>, pre: seq<Byte>, w: Sent, post: seq<Byte>)
    requires Sendable(w) && msg == pre + Wire(w) + post
    ensures msg == pre + Octets(w.owner) + (Fixed(w) + Payload(w) + post)
  {
    hide Octets, Fixed, Payload;
    Flatten(msg, pre, Octets(w.owner), Fixed(w) + Payload(w), post);
  }

  lemma RecordName(msg: seq<Byte>, pre: seq<Byte>, w: Sent, post: seq<Byte>)
    requires Sendable(w) && msg == pre + Octets(w.owner) + (Fixed(w) + Payload(w) + post) && Linked(msg, w.owner)
    ensures Name(msg, |pre|, 0) == Some(Full(w.owner)) && NameEnd(msg, |pre|) == |pre| + |Octets(w.owner)|
  {
    hide Octets, Fixed, Payload, Name, NameEnd, Full, Linked;
    FormReads(msg, pre, w.owner, Fixed(w) + Payload(w) + post);
  }

  lemma RecordFields(msg: seq<Byte>, pre: seq<Byte>, name: seq<Byte>, w: Sent, post: seq<Byte>, n: nat)
    requires Sendable(w) && msg == pre + name + (Fixed(w) + Payload(w) + post) && n == |pre| + |name|
    ensures Stands(msg, n, w)
  {
    hide Fixed, Payload, Stands;
    var fixed, payload := Fixed(w), Payload(w);
    assert fixed + payload + post == fixed + (payload + post);
    Regroup(msg, pre, name, fixed, payload + post);
    FixedAt(msg, pre + name, w, payload + post, n);
  }

  lemma RecordData(msg: seq<Byte>, pre: seq<Byte>, w: Sent, post: seq<Byte>)
    requires Sendable(w) && msg == pre + Wire(w) + post && RecordLinked(msg, w)
    ensures var n := |pre| + |Octets(w.owner)| + 10;
      n + |Payload(w)| <= |msg| && DataAt(msg, w.rtype, n, n + |Payload(w)|) == Said(w).data
  {
    hide Name, NameEnd, Octets;
    var head := pre + Octets(w.owner) + Fixed(w);
    assert msg == head + Payload(w) + post;
    Middle(head, Payload(w), post, 0, |Payload(w)|);
    if NamesTarget(w.rtype) { FormReads(msg, head, w.target, post); }
  }

  lemma RecordReads(msg: seq<Byte>, pre: seq<Byte>, w: Sent, post: seq<Byte>)
    requires Sendable(w) && msg == pre + Wire(w) + post && RecordLinked(msg, w)
    ensures RecordAt(msg, |pre|) == Some((Said(w), |pre| + |Wire(w)|))
  {
    hide Name, NameEnd, Number, Fixed, DataAt, Octets;
    Opened(msg, pre, w, post);
    RecordName(msg, pre, w, post);
    RecordFields(msg, pre, Octets(w.owner), w, post, |pre| + |Octets(w.owner)|);
    RecordData(msg, pre, w, post);
  }

  predicate AllSendable(ws: seq<Sent>) { forall i :: 0 <= i < |ws| ==> Sendable(ws[i]) }

  ghost predicate AllLinked(msg: seq<Byte>, ws: seq<Sent>) { forall i :: 0 <= i < |ws| ==> RecordLinked(msg, ws[i]) }

  function WireAll(ws: seq<Sent>): seq<Byte>
    requires AllSendable(ws)
  {
    if ws == [] then [] else WireAll(ws[..|ws| - 1]) + Wire(ws[|ws| - 1])
  }

  function SaidAll(ws: seq<Sent>): (r: seq<Record>)
    requires AllSendable(ws)
    ensures |r| == |ws| && forall i :: 0 <= i < |ws| ==> r[i] == Said(ws[i])
  {
    if ws == [] then [] else SaidAll(ws[..|ws| - 1]) + [Said(ws[|ws| - 1])]
  }

  lemma {:induction false} RecordsRead(msg: seq<Byte>, pre: seq<Byte>, ws: seq<Sent>, post: seq<Byte>)
    requires AllSendable(ws) && msg == pre + WireAll(ws) + post && AllLinked(msg, ws)
    ensures RecordsAt(msg, |pre|, |ws|) == Some((SaidAll(ws), |pre| + |WireAll(ws)|))
    decreases |ws|
  {
    hide RecordAt, Wire, Said, RecordLinked;
    if ws != [] {
      var init, last := ws[..|ws| - 1], ws[|ws| - 1];
      var wire, before := Wire(last), pre + WireAll(init);
      assert msg == pre + WireAll(init) + (wire + post);
      RecordsRead(msg, pre, init, wire + post);
      assert msg == before + wire + post;
      RecordReads(msg, before, last, post);
    }
  }

  // ------------------------------------------------------------------------- questions

  datatype Question = Question(name: WireForm, qtype: nat, qclass: nat)

  function WireAsked(q: Question): seq<Byte>
    requires GoodForm(q.name)
  {
    Octets(q.name) + (BigEndian(q.qtype, 2) + BigEndian(q.qclass, 2))
  }

  predicate AllAsked(qs: seq<Question>) { forall i :: 0 <= i < |qs| ==> GoodForm(qs[i].name) }

  ghost predicate AskedLinked(msg: seq<Byte>, qs: seq<Question>) { forall i :: 0 <= i < |qs| ==> Linked(msg, qs[i].name) }

  function WireQuestions(qs: seq<Question>): seq<Byte>
    requires AllAsked(qs)
  {
    if qs == [] then [] else WireQuestions(qs[..|qs| - 1]) + WireAsked(qs[|qs| - 1])
  }

  lemma QuestionSkipped(msg: seq<Byte>, pre: seq<Byte>, q: Question, post: seq<Byte>)
    requires GoodForm(q.name) && msg == pre + WireAsked(q) + post && Linked(msg, q.name)
    ensures Name(msg, |pre|, 0).Some? && NameEnd(msg, |pre|) + 4 == |pre| + |WireAsked(q)|
  {
    hide Name, NameEnd, Octets;
    var fields := BigEndian(q.qtype, 2) + BigEndian(q.qclass, 2);
    Flatten(msg, pre, Octets(q.name), fields, post);
    FormReads(msg, pre, q.name, fields + post);
  }

  lemma {:induction false} QuestionsSkipped(msg: seq<Byte>, pre: seq<Byte>, qs: seq<Question>, post: seq<Byte>)
    requires AllAsked(qs) && msg == pre + WireQuestions(qs) + post && AskedLinked(msg, qs)
    ensures QuestionsEnd(msg, |pre|, |qs|) == Some(|pre| + |WireQuestions(qs)|)
    decreases |qs|
  {
    hide Name, NameEnd, WireAsked, Linked;
    if qs != [] {
      var init, q := qs[..|qs| - 1], qs[|qs| - 1];
      var wire, before := WireAsked(q), pre + WireQuestions(init);
      assert msg == pre + WireQuestions(init) + (wire + post);
      QuestionsSkipped(msg, pre, init, wire + post);
      assert msg == before + wire + post;
      QuestionSkipped(msg, before, q, post);
    }
  }

  // -------------------------------------------------------------------------- messages

  datatype Message = Message(id: nat, flags: nat, questions: seq<Question>, answers: seq<Sent>, authorities: seq<Sent>, additionals: seq<Sent>)

  predicate Wellformed(m: Message) {
    && m.id < 0x1_0000 && m.flags < 0x1_0000 && AllAsked(m.questions) && |m.questions| < 0x1_0000
    && AllSendable(m.answers) && |m.answers| < 0x1_0000 && AllSendable(m.authorities) && |m.authorities| < 0x1_0000
    && AllSendable(m.additionals) && |m.additionals| < 0x1_0000
  }

  function Header(m: Message): (s: seq<Byte>)
    ensures |s| == 12
  {
    BigEndian(m.id, 2) + BigEndian(m.flags, 2) + BigEndian(|m.questions|, 2) + BigEndian(|m.answers|, 2)
    + BigEndian(|m.authorities|, 2) + BigEndian(|m.additionals|, 2)
  }

  lemma HeaderReads(m: Message, rest: seq<Byte>)
    requires Wellformed(m)
    ensures var msg := Header(m) + rest;
      && Number(msg[0..2]) == m.id && Number(msg[2..4]) == m.flags && Number(msg[4..6]) == |m.questions|
      && Number(msg[6..8]) == |m.answers| && Number(msg[8..10]) == |m.authorities| && Number(msg[10..12]) == |m.additionals|
  {
    hide BigEndian, Number, Power;
    Powers();
    var msg := Header(m) + rest;
    ReadsNumber(m.id, 2);
    ReadsNumber(m.flags, 2);
    ReadsNumber(|m.questions|, 2);
    ReadsNumber(|m.answers|, 2);
    ReadsNumber(|m.authorities|, 2);
    ReadsNumber(|m.additionals|, 2);
    assert msg[0..2] == BigEndian(m.id, 2) && msg[2..4] == BigEndian(m.flags, 2) && msg[4..6] == BigEndian(|m.questions|, 2);
    assert msg[6..8] == BigEndian(|m.answers|, 2) && msg[8..10] == BigEndian(|m.authorities|, 2);
    assert msg[10..12] == BigEndian(|m.additionals|, 2);
  }

  function WireMessage(m: Message): seq<Byte>
    requires Wellformed(m)
  {
    Header(m) + (WireQuestions(m.questions) + (WireAll(m.answers) + (WireAll(m.authorities) + WireAll(m.additionals))))
  }

  /** Every pointer of the message points to where it spells what the pointer stands for. */
  ghost predicate Resolved(m: Message)
    requires Wellformed(m)
  {
    var msg := WireMessage(m);
    AskedLinked(msg, m.questions) && AllLinked(msg, m.answers) && AllLinked(msg, m.authorities) && AllLinked(msg, m.additionals)
  }

  /** Every message laid out as section 4 of RFC 1035 says is read back record by record, with
      every name in full. */
  lemma MessageReads(m: Message)
    requires Wellformed(m) && Resolved(m)
    ensures var msg := WireMessage(m);
      && |msg| >= 12 && Number(msg[0..2]) == m.id && Number(msg[2..4]) == m.flags
      && SectionsOf(msg) == Some(Sections(SaidAll(m.answers), SaidAll(m.authorities), SaidAll(m.additionals)))
  {
    hide Header, Number, QuestionsEnd, RecordsAt, WireQuestions, WireAll, SaidAll, AskedLinked, AllLinked;
    var msg, h, q := WireMessage(m), Header(m), WireQuestions(m.questions);
    var an, ns, ar := WireAll(m.answers), WireAll(m.authorities), WireAll(m.additionals);
    HeaderReads(m, q + (an + (ns + ar)));
    assert msg == h + q + (an + (ns + ar));
    QuestionsSkipped(msg, h, m.questions, an + (ns + ar));
    assert msg == (h + q) + an + (ns + ar);
    RecordsRead(msg, h + q, m.answers, ns + ar);
    assert msg == (h + q + an) + ns + ar;
    RecordsRead(msg, h + q + an, m.authorities, ar);
    assert msg == (h + q + an + ns) + ar + [];
    RecordsRead(msg, h + q + an + ns, m.additionals, []);
  }

  /** A message byte by byte: the address of a name of one letter, by a pointer to the question. */
  function Sample(i: Byte, j: Byte, x: Byte, ip: seq<Byte>): seq<Byte> {
    var header := [i, j, 0x81, 0x80, 0, 1, 0, 1, 0, 0, 0, 0];
    var question := [1, x, 0, 0, 1, 0, 1];
    var record := [0xc0, 12, 0, 1, 0, 1, 0, 0, 1, 44, 0, 4];
    header + question + record + ip
  }

  lemma SampleBytes(i: Byte, j: Byte, x: Byte, ip: seq<Byte>, msg: seq<Byte>)
    requires |ip| == 4 && msg == Sample(i, j, x, ip)
    ensures |msg| == 35 && msg[12] == 1 && msg[13] == x && msg[14] == 0 && msg[19] == 0xc0 && msg[20] == 12
    ensures msg[4..6] == [0, 1] && msg[6..8] == [0, 1] && msg[8..10] == [0, 0] && msg[10..12] == [0, 0]
    ensures msg[21..23] == [0, 1] && msg[23..25] == [0, 1] && msg[25..29] == [0, 0, 1, 44] && msg[29..31] == [0, 4]
    ensures msg[31..35] == ip
  {
    assert msg[4] == 0 && msg[5] == 1 && msg[6] == 0 && msg[7] == 1 && msg[8] == 0 && msg[9] == 0 && msg[10] == 0 && msg[11] == 0;
    assert msg[21] == 0 && msg[22] == 1 && msg[23] == 0 && msg[24] == 1 && msg[29] == 0 && msg[30] == 4;
    assert msg[25] == 0 && msg[26] == 0 && msg[27] == 1 && msg[28] == 44;
  }

  lemma SampleNames(msg: seq<Byte>, x: Byte)
    requires |msg| == 35 && msg[12] == 1 && msg[13] == x && msg[14] == 0 && msg[19] == 0xc0 && msg[20] == 12
    ensures Name(msg, 12, 0) == Some([[x]]) && NameEnd(msg, 12) == 15
    ensures Name(msg, 19, 0) == Some([[x]]) && NameEnd(msg, 19) == 21
  {
    assert msg[13..14] == [x];
    assert Name(msg, 14, 0) == Some([]) && Name(msg, 14, 1) == Some([]);
    assert NameEnd(msg, 14) == 15;
    assert Name(msg, 12, 0) == Some([[x]] + []) && Name(msg, 12, 1) == Some([[x]] + []);
    assert [[x]] + [] == [[x]] && Pointer(msg, 19) == 12;
    assert Name(msg, 19, 0) == Name(msg, 12, 1);
  }

  /** That address is what is read of it. */
  lemma SampleReads(i: Byte, j: Byte, x: Byte, ip: seq<Byte>)
    requires |ip| == 4
    ensures var msg := Sample(i, j, x, ip);
      |msg| == 35 && SectionsOf(msg) == Some(Sections([Record([x], 1, 1, 300, Address(ip))], [], []))
  {
    hide Name, NameEnd, Number, Sample;
    var msg := Sample(i, j, x, ip);
    SampleBytes(i, j, x, ip, msg);
    SmallNumbers();
    SampleNames(msg, x);
    assert QuestionsEnd(msg, 12, 0) == Some(12);
    assert QuestionsEnd(msg, 12, 1) == Some(19);
    assert JoinDots([[x]]) == [x];
    var r := Record([x], 1, 1, 300, Address(ip));
    assert RecordAt(msg, 19) == Some((r, 35)) && [] + [r] == [r];
    assert RecordsAt(msg, 19, 0) == Some(([], 19)) && RecordsAt(msg, 35, 0) == Some(([], 35));
    assert RecordsAt(msg, 19, 1) == Some(([] + [r], 35));
  }

  lemma SmallNumbers()
    ensures Number([0, 0]) == 0 && Number([0, 1]) == 1 && Number([0, 4]) == 4 && Number([0, 0, 1, 44]) == 300
  {
    assert [0, 0][..1] == [0] && [0, 1][..1] == [0] && [0, 4][..1] == [0] && [0][..0] == [];
    assert Number([0]) == 0;
    assert [0, 0, 1, 44][..3] == [0, 0, 1] && [0, 0, 1][..2] == [0, 0];
    assert Number([0, 0]) == 0 && Number([0, 0, 1]) == 1;
  }

  /** The usual pointer, to the name in the first question, which starts at offset 12. */
  lemma QuestionIsTarget(m: Message, labels: seq<Label>, owner: WireForm)
    requires Wellformed(m) && m.questions != [] && m.questions[0].name == WireForm(labels, None)
    requires owner.link == Some(Link(12, labels))
    ensures Linked(WireMessage(m), owner)
  {
    hide Header, EncodeLabels, Spells, Name, WireAll;
    var msg := WireMessage(m);
    FirstQuestion(m.questions);
    var fields := BigEndian(m.questions[0].qtype, 2) + BigEndian(m.questions[0].qclass, 2);
    var tail := WireQuestions(m.questions)[|WireName(labels)|..];
    var records := WireAll(m.answers) + (WireAll(m.authorities) + WireAll(m.additionals));
    assert WireQuestions(m.questions) == WireName(labels) + tail;
    assert msg == Header(m) + WireName(labels) + (tail + records);
    assert WireName(labels) + (tail + records) == EncodeLabels(labels) + ([0] + (tail + records));
    PlainName(msg, Header(m), labels, tail + records);
  }

  lemma {:induction false} FirstQuestion(qs: seq<Question>)
    requires AllAsked(qs) && qs != [] && qs[0].name.link.None?
    ensures WireName(qs[0].name.labels) <= WireQuestions(qs)
    decreases |qs|
  {
    hide EncodeLabels;
    var init, last := qs[..|qs| - 1], qs[|qs| - 1];
    if |qs| > 1 {
      FirstQuestion(init);
    } else {
      assert init == [] && WireQuestions(qs) == WireAsked(last);
    }
  }
}
