/**
 The DNS client: building a query and reading the addresses out of a response, in the
 layout of section 4.1 of RFC 1035.
 */
module Dns {
  import opened Bytes
  import opened Json

  datatype Address = V4(octets: bytes) | V6(octets: bytes)

  function Be16(n: nat): (b: bytes)
    requires n < 0x1_0000
    ensures |b| == 2
  {
    [n / 256, n % 256]
  }

  function FromBe16(high: byte, low: byte): (n: nat)
    ensures n < 0x1_0000
  {
    high as int * 256 + low as int
  }

  // ---------- the query ----------

  /** The labels between the dots. */
  function Split(host: bytes): (labels: seq<bytes>)
    ensures labels != []
  {
    if host == [] then [[]]
    else
      var rest := Split(host[1..]);
      if host[0] == DOT then [[]] + rest else [[host[0]] + rest[0]] + rest[1..]
  }

  /** The labels with dots between them. */
  function JoinedByDots(labels: seq<bytes>): bytes
    requires labels != []
  {
    labels[0] + (if |labels| == 1 then [] else [DOT] + JoinedByDots(labels[1..]))
  }

  /** Splitting undoes joining. */
  lemma {:induction false} SplitOfJoined(labels: seq<bytes>)
    requires labels != [] && forall text <- labels :: DOT !in text
    ensures Split(JoinedByDots(labels)) == labels
    decreases |labels|
  {
    if |labels| == 1 {
      SplitFirst(labels[0], []);
      assert labels[0] + [] == labels[0] && labels == [labels[0]];
    } else {
      SplitOfJoined(labels[1..]);
      var rest := [DOT] + JoinedByDots(labels[1..]);
      assert rest[1..] == JoinedByDots(labels[1..]);
      SplitFirst(labels[0], rest);
      assert labels[0] + rest == JoinedByDots(labels);
      assert Split(rest) == [[]] + labels[1..];
      assert labels[0] + [] == labels[0] && labels == [labels[0]] + labels[1..];
    }
  }

  /** Bytes that are no dots lengthen the first label. */
  lemma {:induction false} SplitFirst(first: bytes, rest: bytes)
    requires DOT !in first
    ensures Split(first + rest) == [first + Split(rest)[0]] + Split(rest)[1..]
    decreases |first|
  {
    if first == [] {
      assert first + rest == rest && first + Split(rest)[0] == Split(rest)[0];
    } else {
      assert (first + rest)[1..] == first[1..] + rest;
      SplitFirst(first[1..], rest);
      assert [first[0]] + (first[1..] + Split(rest)[0]) == first + Split(rest)[0];
    }
  }

  /** Joining undoes splitting, and no label holds a dot: together the labels are what the dots leave. */
  lemma {:induction false} JoinedOfSplit(host: bytes)
    ensures JoinedByDots(Split(host)) == host && forall text <- Split(host) :: DOT !in text
    decreases |host|
  {
    hide JoinedByDots;
    if host == [] {
      NoDots();
    } else {
      var rest := Split(host[1..]);
      JoinedOfSplit(host[1..]);
      if host[0] == DOT {
        JoinedBehindDot(rest);
      } else {
        JoinedLonger([host[0]], rest);
      }
      assert host == [host[0]] + host[1..];
    }
  }

  lemma NoDots()
    ensures JoinedByDots([[]]) == []
  {
  }

  lemma JoinedLonger(more: bytes, labels: seq<bytes>)
    requires labels != []
    ensures JoinedByDots([more + labels[0]] + labels[1..]) == more + JoinedByDots(labels)
  {
    assert ([more + labels[0]] + labels[1..])[1..] == labels[1..];
    Regroup(more, labels[0], if |labels| == 1 then [] else [DOT] + JoinedByDots(labels[1..]));
  }

  lemma JoinedBehindDot(labels: seq<bytes>)
    requires labels != []
    ensures JoinedByDots([[]] + labels) == [DOT] + JoinedByDots(labels)
  {
    assert ([[]] + labels)[1..] == labels;
    assert [] + ([DOT] + JoinedByDots(labels)) == [DOT] + JoinedByDots(labels);
  }

  /** A label with its length, which is cut to a byte. */
  function LabelBytes(text: bytes): bytes {
    [|text| % 256] + text
  }

  function LabelsBytes(labels: seq<bytes>): bytes {
    if labels == [] then [] else LabelBytes(labels[0]) + LabelsBytes(labels[1..])
  }

  const QUERY_HEADER: bytes := [0x12, 0x34, 0x01, 0x00, 0x00, 0x01, 0, 0, 0, 0, 0, 0]

  function Query(host: bytes, qtype: nat): bytes
    requires qtype < 0x1_0000
  {
    QUERY_HEADER + LabelsBytes(Split(host)) + [0] + Be16(qtype) + Be16(1)
  }

  method BuildDnsQuery(host: bytes, qtype: nat) returns (buf: bytes)
    requires qtype < 0x1_0000
    ensures buf == Query(host, qtype)
  {
    buf := Be16(0x1234) + Be16(0x0100) + Be16(1) + [0, 0, 0, 0, 0, 0];
    var labels := Split(host);
    var i := 0;
    assert labels[0..] == labels;
    while i < |labels|
      invariant 0 <= i <= |labels|
      invariant buf + LabelsBytes(labels[i..]) == QUERY_HEADER + LabelsBytes(labels)
    {
      assert labels[i..][1..] == labels[i + 1..];
      Regroup(buf, LabelBytes(labels[i]), LabelsBytes(labels[i + 1..]));
      Regroup(buf, [|labels[i]| % 256], labels[i]);
      buf := buf + [|labels[i]| % 256] + labels[i];
      i := i + 1;
    }
    buf := buf + [0] + Be16(qtype) + Be16(1);
  }

  // ---------- the response ----------

  /** The position after a name: past its zero, or past a compression pointer. */
  function SkipName(data: bytes, pos: nat): (end: nat)
    ensures pos < end
    decreases |data| - pos
  {
    if pos >= |data| || data[pos] == 0 then pos + 1
    else if data[pos] >= 0xC0 then pos + 2
    else SkipName(data, pos + data[pos] as int + 1)
  }

  function SkipQuestions(data: bytes, pos: nat, count: nat): Option<nat>
    decreases count
  {
    if count == 0 then Some(pos)
    else
      var end := SkipName(data, pos);
      if end + 4 > |data| then None else SkipQuestions(data, end + 4, count - 1)
  }

  /** The address a record holds, if it is of one of the two kinds. */
  function AddressOf(rtype: nat, rdata: bytes): seq<Address> {
    if rtype == 1 && |rdata| == 4 then [V4(rdata)]
    else if rtype == 28 && |rdata| == 16 then [V6(rdata)]
    else []
  }

  /** Where a record's data lies. */
  datatype Extent = Extent(rtype: nat, start: nat, length: nat)

  /** The record at a position, if the data does not end too early. */
  function RecordAt(data: bytes, pos: nat): (r: Option<Extent>)
    ensures r.Some? ==> r.value.start + r.value.length <= |data|
  {
    if pos + 10 > |data| then None
    else
      var end := SkipName(data, pos);
      if end + 10 > |data| then None
      else
        var length := FromBe16(data[end + 8], data[end + 9]);
        if end + 10 + length > |data| then None else Some(Extent(FromBe16(data[end], data[end + 1]), end + 10, length))
  }

  function Answers(data: bytes, pos: nat, count: nat): seq<Address>
    decreases count
  {
    if count == 0 || RecordAt(data, pos).None? then []
    else
      var r := RecordAt(data, pos).value;
      AddressOf(r.rtype, data[r.start..r.start + r.length]) + Answers(data, r.start + r.length, count - 1)
  }

  function Addresses(data: bytes): seq<Address> {
    if |data| < 12 then []
    else
      var pos := SkipQuestions(data, 12, FromBe16(data[4], data[5]));
      if pos.None? then [] else Answers(data, pos.value, FromBe16(data[6], data[7]))
  }

  method SkipNameLoop(data: bytes, start: nat) returns (pos: nat)
    ensures pos == SkipName(data, start)
  {
    pos := start;
    while true
      invariant SkipName(data, pos) == SkipName(data, start)
      decreases |data| - pos
    {
      if pos >= |data| || data[pos] == 0 {
        return pos + 1;
      }
      if data[pos] >= 0xC0 {
        return pos + 2;
      }
      pos := pos + data[pos] as int + 1;
    }
  }

  method SkipQuestionsLoop(data: bytes, start: nat, qdcount: nat) returns (pos: Option<nat>)
    ensures pos == SkipQuestions(data, start, qdcount)
  {
    hide SkipName;
    var at: nat := start;
    var q := 0;
    while q < qdcount
      invariant 0 <= q <= qdcount
      invariant SkipQuestions(data, at, qdcount - q) == SkipQuestions(data, start, qdcount)
    {
      at := SkipNameLoop(data, at);
      if at + 4 > |data| {
        return None;
      }
      at := at + 4;
      q := q + 1;
    }
    pos := Some(at);
  }

  /** One answer record, or nothing where the data ends too early. */
  method ReadAnswer(data: bytes, start: nat) returns (next: Option<nat>, found: seq<Address>)
    ensures var r := RecordAt(data, start);
            if r.None? then next == None
            else next == Some(r.value.start + r.value.length)
                 && found == AddressOf(r.value.rtype, data[r.value.start..r.value.start + r.value.length])
  {
    hide SkipName, FromBe16;
    if start + 10 > |data| {
      return None, [];
    }
    var pos := SkipNameLoop(data, start);
    if pos + 10 > |data| {
      return None, [];
    }
    var atype, rdlength := FromBe16(data[pos], data[pos + 1]), FromBe16(data[pos + 8], data[pos + 9]);
    pos := pos + 10;
    if pos + rdlength > |data| {
      return None, [];
    }
    assert RecordAt(data, start) == Some(Extent(atype, pos, rdlength));
    hide RecordAt;
    found := [];
    if atype == 1 && rdlength == 4 {
      found := [V4([data[pos], data[pos + 1], data[pos + 2], data[pos + 3]])];
      assert data[pos..pos + 4] == [data[pos], data[pos + 1], data[pos + 2], data[pos + 3]];
    } else if atype == 28 && rdlength == 16 {
      found := [V6(data[pos..pos + 16])];
    }
    next := Some(pos + rdlength);
  }

  lemma AnswersUnfold(data: bytes, pos: nat, count: nat)
    ensures count == 0 || RecordAt(data, pos).None? ==> Answers(data, pos, count) == []
    ensures count > 0 && RecordAt(data, pos).Some? ==>
              var r := RecordAt(data, pos).value;
              r.start + r.length <= |data|
              && Answers(data, pos, count)
                 == AddressOf(r.rtype, data[r.start..r.start + r.length]) + Answers(data, r.start + r.length, count - 1)
  {
    hide RecordAt, AddressOf;
  }

  /** Reads a response; every access is in bounds whatever the bytes are. */
  method ParseDnsResponse(data: bytes) returns (results: seq<Address>)
    ensures results == Addresses(data)
  {
    hide SkipName, SkipQuestions, RecordAt, FromBe16, AddressOf, Answers;
    results := [];
    if |data| < 12 {
      return;
    }
    var qdcount, ancount := FromBe16(data[4], data[5]), FromBe16(data[6], data[7]);
    var after := SkipQuestionsLoop(data, 12, qdcount);
    if after.None? {
      return;
    }
    var pos := after.value;
    var a := 0;
    while a < ancount
      invariant 0 <= a <= ancount
      invariant results + Answers(data, pos, ancount - a) == Answers(data, after.value, ancount)
    {
      AnswersUnfold(data, pos, ancount - a);
      var next, found := ReadAnswer(data, pos);
      if next.None? {
        assert results + [] == results;
        return;
      }
      Regroup(results, found, Answers(data, next.value, ancount - a - 1));
      results := results + found;
      pos := next.value;
      a := a + 1;
    }
    AnswersUnfold(data, pos, 0);
    assert results + [] == results;
  }

  // ---------- well-formed messages ----------

  /** How a name ends: at the root, or with a pointer to an earlier name. */
  datatype Ending = Root | Pointer(high: byte, low: byte)

  datatype Name = Name(labels: seq<bytes>, ending: Ending)

  datatype Question = Question(name: Name, fields: bytes)

  /** A resource record; `middle` is its class and time to live. */
  datatype Record = Record(name: Name, rtype: nat, middle: bytes, rdata: bytes)

  predicate GoodLabel(text: bytes) {
    1 <= |text| <= 63
  }

  predicate GoodName(n: Name) {
    (forall i :: 0 <= i < |n.labels| ==> GoodLabel(n.labels[i])) && (n.ending.Pointer? ==> n.ending.high >= 0xC0)
  }

  predicate GoodQuestion(q: Question) {
    GoodName(q.name) && |q.fields| == 4
  }

  predicate GoodRecord(r: Record) {
    GoodName(r.name) && r.rtype < 0x1_0000 && |r.middle| == 6 && |r.rdata| < 0x1_0000
  }

  function EndingBytes(e: Ending): bytes {
    if e.Root? then [0] else [e.high, e.low]
  }

  function NameBytes(n: Name): bytes {
    LabelsBytes(n.labels) + EndingBytes(n.ending)
  }

  function QuestionBytes(q: Question): bytes {
    NameBytes(q.name) + q.fields
  }

  function RecordBytes(r: Record): bytes
    requires GoodRecord(r)
  {
    NameBytes(r.name) + (Be16(r.rtype) + r.middle + Be16(|r.rdata|) + r.rdata)
  }

  function QuestionsBytes(qs: seq<Question>): bytes {
    if qs == [] then [] else QuestionBytes(qs[0]) + QuestionsBytes(qs[1..])
  }

  function RecordsBytes(rs: seq<Record>): bytes
    requires forall i :: 0 <= i < |rs| ==> GoodRecord(rs[i])
  {
    if rs == [] then [] else RecordBytes(rs[0]) + RecordsBytes(rs[1..])
  }

  /** The host address of a record of type A (section 3.4.1 of RFC 1035) or AAAA (section 2.1 of RFC 3596). */
  function HostAddress(r: Record): seq<Address> {
    match (r.rtype, |r.rdata|)
    case (1, 4) => [V4(r.rdata)]
    case (28, 16) => [V6(r.rdata)]
    case _ => []
  }

  /** The addresses among the records, in order. */
  function AddressesOf(rs: seq<Record>): seq<Address> {
    if rs == [] then [] else HostAddress(rs[0]) + AddressesOf(rs[1..])
  }

  /** Header, questions and answers, and anything after them. */
  predicate IsMessage(data: bytes, qs: seq<Question>, rs: seq<Record>, rest: bytes) {
    && (forall i :: 0 <= i < |qs| ==> GoodQuestion(qs[i])) && (forall i :: 0 <= i < |rs| ==> GoodRecord(rs[i]))
    && |data| >= 12 && FromBe16(data[4], data[5]) == |qs| && FromBe16(data[6], data[7]) == |rs|
    && data[12..] == QuestionsBytes(qs) + RecordsBytes(rs) + rest
  }

  lemma Be16ThereAndBack(n: nat)
    requires n < 0x1_0000
    ensures FromBe16(Be16(n)[0], Be16(n)[1]) == n
  {
  }

  lemma {:induction false} SkipLabels(data: bytes, pos: nat, labels: seq<bytes>)
    requires At(data, pos, LabelsBytes(labels)) && forall i :: 0 <= i < |labels| ==> GoodLabel(labels[i])
    ensures SkipName(data, pos) == SkipName(data, pos + |LabelsBytes(labels)|)
    decreases |labels|
  {
    hide SkipName, LabelBytes;
    if labels != [] {
      AtConcat(data, pos, LabelBytes(labels[0]), LabelsBytes(labels[1..]));
      SkipLabel(data, pos, labels[0]);
      SkipLabels(data, pos + |LabelBytes(labels[0])|, labels[1..]);
    }
  }

  lemma SkipLabel(data: bytes, pos: nat, text: bytes)
    requires At(data, pos, LabelBytes(text)) && GoodLabel(text)
    ensures SkipName(data, pos) == SkipName(data, pos + |LabelBytes(text)|)
  {
    AtPeek(data, pos, LabelBytes(text), 0);
  }

  /** Skipping a well-formed name ends right behind it. */
  lemma SkipWholeName(data: bytes, pos: nat, n: Name)
    requires GoodName(n) && At(data, pos, NameBytes(n))
    ensures SkipName(data, pos) == pos + |NameBytes(n)|
  {
    AtConcat(data, pos, LabelsBytes(n.labels), EndingBytes(n.ending));
    SkipLabels(data, pos, n.labels);
    hide LabelsBytes;
    var end := pos + |LabelsBytes(n.labels)|;
    AtPeek(data, end, EndingBytes(n.ending), 0);
  }

  lemma {:induction false} SkipAllQuestions(data: bytes, pos: nat, qs: seq<Question>)
    requires (forall i :: 0 <= i < |qs| ==> GoodQuestion(qs[i])) && At(data, pos, QuestionsBytes(qs))
    ensures SkipQuestions(data, pos, |qs|) == Some(pos + |QuestionsBytes(qs)|)
    decreases |qs|
  {
    hide NameBytes, SkipName;
    if qs != [] {
      AtConcat(data, pos, QuestionBytes(qs[0]), QuestionsBytes(qs[1..]));
      AtConcat(data, pos, NameBytes(qs[0].name), qs[0].fields);
      SkipWholeName(data, pos, qs[0].name);
      SkipAllQuestions(data, pos + |QuestionBytes(qs[0])|, qs[1..]);
    }
  }

  /** One record: its fields are where the parser looks for them. */
  lemma RecordRead(data: bytes, pos: nat, r: Record)
    requires GoodRecord(r) && At(data, pos, RecordBytes(r))
    ensures var start := pos + |NameBytes(r.name)| + 10;
            && RecordAt(data, pos) == Some(Extent(r.rtype, start, |r.rdata|))
            && start + |r.rdata| == pos + |RecordBytes(r)|
            && data[start..start + |r.rdata|] == r.rdata
  {
    hide NameBytes, SkipName, Be16, FromBe16;
    var fields := Be16(r.rtype) + r.middle + Be16(|r.rdata|) + r.rdata;
    AtConcat(data, pos, NameBytes(r.name), fields);
    SkipWholeName(data, pos, r.name);
    var end := pos + |NameBytes(r.name)|;
    AtPeek(data, end, fields, 0);
    AtPeek(data, end, fields, 1);
    AtPeek(data, end, fields, 8);
    AtPeek(data, end, fields, 9);
    Be16ThereAndBack(r.rtype);
    Be16ThereAndBack(|r.rdata|);
    AtConcat(data, end, Be16(r.rtype) + r.middle + Be16(|r.rdata|), r.rdata);
  }

  lemma {:induction false} AllAnswers(data: bytes, pos: nat, rs: seq<Record>)
    requires (forall i :: 0 <= i < |rs| ==> GoodRecord(rs[i])) && At(data, pos, RecordsBytes(rs))
    ensures Answers(data, pos, |rs|) == AddressesOf(rs)
    decreases |rs|
  {
    hide RecordBytes, RecordAt, NameBytes, AddressOf, HostAddress, Answers, At;
    AnswersUnfold(data, pos, |rs|);
    if rs != [] {
      AtConcat(data, pos, RecordBytes(rs[0]), RecordsBytes(rs[1..]));
      RecordRead(data, pos, rs[0]);
      RecordAddress(rs[0]);
      AllAnswers(data, pos + |RecordBytes(rs[0])|, rs[1..]);
    }
  }

  lemma RecordAddress(r: Record)
    ensures AddressOf(r.rtype, r.rdata) == HostAddress(r)
  {
  }

  /** Main result: from a well-formed message exactly the addresses of its records come out, in order. */
  lemma AddressesOfMessage(data: bytes, qs: seq<Question>, rs: seq<Record>, rest: bytes)
    requires IsMessage(data, qs, rs, rest)
    ensures Addresses(data) == AddressesOf(rs)
  {
    hide QuestionsBytes, RecordsBytes, FromBe16, Answers, SkipQuestions, AddressesOf;
    var body := QuestionsBytes(qs) + RecordsBytes(rs) + rest;
    assert data[12..12 + |body|] == data[12..];
    AtConcat(data, 12, QuestionsBytes(qs) + RecordsBytes(rs), rest);
    AtConcat(data, 12, QuestionsBytes(qs), RecordsBytes(rs));
    SkipAllQuestions(data, 12, qs);
    AllAnswers(data, 12 + |QuestionsBytes(qs)|, rs);
  }

  /** A host name: labels without dots, each of 1 to 63 bytes. */
  predicate GoodHost(labels: seq<bytes>) {
    labels != [] && forall text <- labels :: GoodLabel(text) && DOT !in text
  }

  /** The question that a query carries. */
  function QueryQuestion(labels: seq<bytes>, qtype: nat): Question
    requires qtype < 0x1_0000
  {
    Question(Name(labels, Root), Be16(qtype) + Be16(1))
  }

  lemma QuestionIsGood(labels: seq<bytes>, qtype: nat)
    requires GoodHost(labels) && qtype < 0x1_0000
    ensures GoodQuestion(QueryQuestion(labels, qtype))
  {
  }

  /** A query for a host is itself a message: one question, for the labels between the dots, and no answers. */
  lemma QueryIsMessage(labels: seq<bytes>, qtype: nat)
    requires GoodHost(labels) && qtype < 0x1_0000
    ensures IsMessage(Query(JoinedByDots(labels), qtype), [QueryQuestion(labels, qtype)], [], [])
    ensures Query(JoinedByDots(labels), qtype)[..12] == [0x12, 0x34, 0x01, 0x00, 0x00, 0x01, 0, 0, 0, 0, 0, 0]
    ensures Addresses(Query(JoinedByDots(labels), qtype)) == []
  {
    SplitOfJoined(labels);
    QuestionIsGood(labels, qtype);
    hide GoodHost, GoodQuestion, Split, LabelsBytes, JoinedByDots;
    var q := QueryQuestion(labels, qtype);
    var data := Query(JoinedByDots(labels), qtype);
    OneQuestion(q);
    assert data[12..] == LabelsBytes(labels) + [0] + (Be16(qtype) + Be16(1));
    assert data[..12] == QUERY_HEADER;
    assert forall i :: 0 <= i < 12 ==> data[i] == QUERY_HEADER[i];
    AddressesOfMessage(data, [q], [], []);
  }

  /** A server's answer to a query: the question repeated, then records. */
  lemma AnswerToQuery(labels: seq<bytes>, qtype: nat, header: bytes, rs: seq<Record>, rest: bytes)
    requires GoodHost(labels) && qtype < 0x1_0000
    requires |header| == 12 && FromBe16(header[4], header[5]) == 1 && FromBe16(header[6], header[7]) == |rs|
    requires forall i :: 0 <= i < |rs| ==> GoodRecord(rs[i])
    ensures var data := header + QuestionBytes(QueryQuestion(labels, qtype)) + RecordsBytes(rs) + rest;
            Addresses(data) == AddressesOf(rs)
  {
    hide GoodHost, GoodQuestion, QueryQuestion, IsMessage, QuestionBytes, RecordsBytes, AddressesOf, Addresses;
    var q := QueryQuestion(labels, qtype);
    QuestionIsGood(labels, qtype);
    AnswerIsMessage(q, header, rs, rest);
    AddressesOfMessage(header + QuestionBytes(q) + RecordsBytes(rs) + rest, [q], rs, rest);
  }

  lemma AnswerIsMessage(q: Question, header: bytes, rs: seq<Record>, rest: bytes)
    requires GoodQuestion(q) && forall i :: 0 <= i < |rs| ==> GoodRecord(rs[i])
    requires |header| == 12 && FromBe16(header[4], header[5]) == 1 && FromBe16(header[6], header[7]) == |rs|
    ensures IsMessage(header + QuestionBytes(q) + RecordsBytes(rs) + rest, [q], rs, rest)
  {
    hide GoodQuestion, GoodRecord, RecordsBytes, QuestionBytes, FromBe16;
    var body := QuestionBytes(q) + RecordsBytes(rs) + rest;
    var data := header + QuestionBytes(q) + RecordsBytes(rs) + rest;
    OneQuestion(q);
    assert data == header + body;
    assert data[12..] == body;
    assert data[4] == header[4] && data[5] == header[5] && data[6] == header[6] && data[7] == header[7];
  }

  lemma OneQuestion(q: Question)
    ensures QuestionsBytes([q]) == QuestionBytes(q)
  {
    hide QuestionBytes;
    assert [q][1..] == [] && QuestionsBytes([]) == [];
    assert QuestionBytes(q) + [] == QuestionBytes(q);
  }

  // ---------- arbitrary bytes ----------

  /** An address is four or sixteen bytes that stand somewhere in the data. */
  ghost predicate IsStretch(data: bytes, a: Address) {
    exists i: nat :: At(data, i, a.octets) && |a.octets| == if a.V4? then 4 else 16
  }

  /**
   Whatever the bytes, every address is a stretch of them, and there are no more addresses than the
   header announces.
   */
  lemma {:induction false} AnswersAreStretches(data: bytes, pos: nat, count: nat)
    ensures |Answers(data, pos, count)| <= count
    ensures forall a <- Answers(data, pos, count) :: IsStretch(data, a)
    decreases count
  {
    hide RecordAt, Answers, AddressOf, IsStretch;
    AnswersUnfold(data, pos, count);
    if count > 0 && RecordAt(data, pos).Some? {
      var r := RecordAt(data, pos).value;
      AnswersAreStretches(data, r.start + r.length, count - 1);
      AddressIsStretch(data, r.rtype, r.start, r.length);
    }
  }

  lemma AddressIsStretch(data: bytes, rtype: nat, start: nat, length: nat)
    requires start + length <= |data|
    ensures var here := AddressOf(rtype, data[start..start + length]);
            |here| <= 1 && forall a <- here :: IsStretch(data, a)
  {
    assert At(data, start, data[start..start + length]);
  }
}
