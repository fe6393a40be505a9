/** The parser that takes the first IPv4 address out of a DNS response (RFC 1035, section 4.1). */
module DnsResponse {
  import opened Bytes
  import opened Options
  import opened DnsMessage

  const TYPE_A: nat := 1
  const CLASS_IN: nat := 1
  const HEADER: nat := 12

  // ----- responses and their bytes

  /** The type and class of a question are skipped unread. */
  datatype Question = Question(name: Name, typeAndClass: seq<byte>)

  datatype Record = Record(name: Name, kind: nat, klass: nat, ttl: seq<byte>, data: seq<byte>)

  /** `counts` are the authority and additional counts, `rest` is everything after the answers. */
  datatype Response = Response(id: nat, flags: nat, questions: seq<Question>, answers: seq<Record>,
                               counts: seq<byte>, rest: seq<byte>)

  function Be16(n: nat): (b: seq<byte>)
    requires n < 0x1_0000
    ensures |b| == 2
  {
    [(n / 256) as byte, (n % 256) as byte]
  }

  predicate LegalQuestion(q: Question) { LegalName(q.name) && |q.typeAndClass| == 4 }

  predicate LegalRecord(r: Record) {
    LegalName(r.name) && r.kind < 0x1_0000 && r.klass < 0x1_0000 && |r.ttl| == 4 && |r.data| < 0x1_0000
  }

  function QuestionBytes(q: Question): seq<byte>
    requires LegalQuestion(q)
  {
    Wire(q.name) + q.typeAndClass
  }

  /** The part of a record after its name. */
  function RecordTail(r: Record): seq<byte>
    requires LegalRecord(r)
  {
    Be16(r.kind) + Be16(r.klass) + r.ttl + Be16(|r.data|) + r.data
  }

  function RecordBytes(r: Record): seq<byte>
    requires LegalRecord(r)
  {
    Wire(r.name) + RecordTail(r)
  }

  predicate LegalQuestions(qs: seq<Question>) { forall k :: 0 <= k < |qs| ==> LegalQuestion(qs[k]) }

  predicate LegalRecords(rs: seq<Record>) { forall k :: 0 <= k < |rs| ==> LegalRecord(rs[k]) }

  function AllQuestions(qs: seq<Question>): seq<byte>
    requires LegalQuestions(qs)
  {
    if qs == [] then [] else QuestionBytes(qs[0]) + AllQuestions(qs[1..])
  }

  function AllRecords(rs: seq<Record>): seq<byte>
    requires LegalRecords(rs)
  {
    if rs == [] then [] else RecordBytes(rs[0]) + AllRecords(rs[1..])
  }

  predicate LegalResponse(r: Response) {
    && r.id < 0x1_0000 && r.flags < 0x1_0000 && |r.counts| == 4
    && |r.questions| < 0x1_0000 && |r.answers| < 0x1_0000
    && LegalQuestions(r.questions) && LegalRecords(r.answers)
  }

  function HeaderBytes(r: Response): (b: seq<byte>)
    requires LegalResponse(r)
    ensures |b| == HEADER
  {
    Be16(r.id) + Be16(r.flags) + Be16(|r.questions|) + Be16(|r.answers|) + r.counts
  }

  function Serialise(r: Response): seq<byte>
    requires LegalResponse(r)
  {
    HeaderBytes(r) + (AllQuestions(r.questions) + (AllRecords(r.answers) + r.rest))
  }

  /** An answer flag and no error code. */
  predicate Answered(flags: nat) { flags / 0x8000 % 2 == 1 && flags % 16 == 0 }

  predicate IsAddress(r: Record) { r.kind == TYPE_A && r.klass == CLASS_IN && |r.data| == 4 }

  function Be32(b: seq<byte>): nat
    requires |b| == 4
  {
    b[0] as nat * 0x100_0000 + b[1] as nat * 0x1_0000 + b[2] as nat * 0x100 + b[3] as nat
  }

  function FirstAddress(rs: seq<Record>): Option<nat> {
    if rs == [] then None
    else if IsAddress(rs[0]) then Some(Be32(rs[0].data))
    else FirstAddress(rs[1..])
  }

  /** The four numbers of a dotted address, most significant first. */
  function Quad(a: nat): seq<byte>
    requires a < 0x1_0000_0000
  {
    [(a / 256 / 256 / 256) as byte, (a / 256 / 256 % 256) as byte, (a / 256 % 256) as byte, (a % 256) as byte]
  }

  lemma LastDigit(q: nat, r: nat)
    requires r < 256
    ensures (q * 256 + r) / 256 == q && (q * 256 + r) % 256 == r
  {
  }

  lemma QuadOfBytes(b: seq<byte>)
    requires |b| == 4
    ensures Be32(b) < 0x1_0000_0000 && Quad(Be32(b)) == b
  {
    var x, y := b[0] as nat * 256 + b[1] as nat, (b[0] as nat * 256 + b[1] as nat) * 256 + b[2] as nat;
    LastDigit(b[0] as nat, b[1] as nat);
    LastDigit(x, b[2] as nat);
    LastDigit(y, b[3] as nat);
    assert Be32(b) == y * 256 + b[3] as nat;
  }

  lemma BytesOfQuad(a: nat)
    requires a < 0x1_0000_0000
    ensures |Quad(a)| == 4 && Be32(Quad(a)) == a
  {
  }

  /** Type 1 and class 1, with the four bytes of an IPv4 address (sections 3.2.2, 3.2.4 and 3.4.1 of RFC 1035). */
  predicate HoldsAddress(r: Record) { r.kind == 1 && r.klass == 1 && |r.data| == 4 }

  /** The k-th record is the first that holds an address, and a is that address. */
  predicate Leads(rs: seq<Record>, k: nat, a: nat)
    requires a < 0x1_0000_0000
  {
    k < |rs| && HoldsAddress(rs[k]) && rs[k].data == Quad(a) && forall j :: 0 <= j < k ==> !HoldsAddress(rs[j])
  }

  /** The address found is that of the first record that holds one. */
  lemma {:induction false} FirstAddressIs(rs: seq<Record>, a: nat)
    requires a < 0x1_0000_0000
    ensures FirstAddress(rs) == Some(a) <==> exists k :: Leads(rs, k, a)
    ensures FirstAddress(rs) == None <==> forall k :: 0 <= k < |rs| ==> !HoldsAddress(rs[k])
  {
    hide Be32, Quad;
    if rs != [] {
      FirstAddressIs(rs[1..], a);
      assert forall k :: 0 < k < |rs| ==> rs[k] == rs[1..][k - 1];
      if IsAddress(rs[0]) {
        QuadOfBytes(rs[0].data);
        BytesOfQuad(a);
        assert Be32(rs[0].data) == a ==> Leads(rs, 0, a);
      } else {
        FirstIsLater(rs, a);
      }
    }
  }

  lemma FirstIsLater(rs: seq<Record>, a: nat)
    requires rs != [] && !HoldsAddress(rs[0]) && a < 0x1_0000_0000
    ensures (exists k :: Leads(rs, k, a)) <==> exists k :: Leads(rs[1..], k, a)
  {
    hide Quad, HoldsAddress;
    var later := rs[1..];
    assert forall k :: 0 < k < |rs| ==> rs[k] == later[k - 1];
    if k: nat :| Leads(rs, k, a) {
      assert k > 0;
      assert Leads(later, k - 1, a) by {
        assert forall j :: 0 <= j < k - 1 ==> later[j] == rs[j + 1];
      }
    }
    if k: nat :| Leads(later, k, a) {
      assert Leads(rs, k + 1, a) by {
        assert forall j :: 0 < j < k + 1 ==> rs[j] == later[j - 1];
      }
    }
  }

  /** The flags of a header (section 4.1.1 of RFC 1035): QR, Opcode, AA, TC, RD, RA, Z, RCODE. */
  datatype Flags = Flags(qr: bool, opcode: nat, aa: bool, tc: bool, rd: bool, ra: bool, z: nat, rcode: nat)

  function Bit(b: bool, weight: nat): nat { if b then weight else 0 }

  function FlagWord(f: Flags): nat {
    Bit(f.qr, 0x8000) + f.opcode * 0x800 + Bit(f.aa, 0x400) + Bit(f.tc, 0x200) + Bit(f.rd, 0x100) + Bit(f.ra, 0x80)
    + f.z * 0x10 + f.rcode
  }

  /** A message is an answer if it says so and its response code is that of no error. */
  lemma AnsweredIs(f: Flags)
    requires f.opcode < 16 && f.z < 8 && f.rcode < 16
    ensures FlagWord(f) < 0x1_0000 && (Answered(FlagWord(f)) <==> f.qr && f.rcode == 0)
  {
  }

  lemma AnsweredBytes(a: byte, b: byte)
    ensures Answered(a as nat * 256 + b as nat) <==> a as nat >= 128 && b as nat % 16 == 0
  {
  }

  // ----- what the parser computes

  function U16(msg: seq<byte>, at: nat): (n: nat)
    requires at + 2 <= |msg|
    ensures n < 0x1_0000
  {
    msg[at] as nat * 256 + msg[at + 1] as nat
  }

  function NameEnd(msg: seq<byte>, at: nat): (r: Option<nat>)
    ensures r.Some? ==> at < r.value <= |msg|
  {
    if Resolves(msg, at, MAX_STEPS) then
      ResolvedEnds(msg, at, MAX_STEPS);
      EndOf(msg, at)
    else None
  }

  function QuestionsEnd(msg: seq<byte>, at: nat, count: nat): Option<nat>
    decreases count
  {
    if count == 0 then Some(at)
    else
      var end := NameEnd(msg, at);
      if end.None? || end.value + 4 > |msg| then None else QuestionsEnd(msg, end.value + 4, count - 1)
  }

  function AddressAt(msg: seq<byte>, at: nat, count: nat): Option<nat>
    decreases count
  {
    if count == 0 then None
    else
      var end := NameEnd(msg, at);
      if end.None? || end.value + 10 > |msg| then None
      else
        var length := U16(msg, end.value + 8);
        var data := end.value + 10;
        if data + length > |msg| then None
        else if U16(msg, end.value) == TYPE_A && U16(msg, end.value + 2) == CLASS_IN && length == 4 then
          Some(Be32(msg[data..data + 4]))
        else AddressAt(msg, data + length, count - 1)
  }

  function Parsed(msg: seq<byte>, id: nat): Option<nat> {
    if |msg| < HEADER || U16(msg, 0) != id || !Answered(U16(msg, 2)) then None
    else
      var at := QuestionsEnd(msg, HEADER, U16(msg, 4));
      if at.None? then None else AddressAt(msg, at.value, U16(msg, 6))
  }

  /** ush_httpget_read_be16. */
  method ReadBe16(msg: seq<byte>, at: nat) returns (n: nat)
    requires at + 2 <= |msg|
    ensures n == U16(msg, at)
  {
    n := msg[at] as nat * 256 + msg[at + 1] as nat;
  }

  /** ush_httpget_dns_parse_first_a. */
  method ParseFirstA(msg: seq<byte>, id: nat) returns (address: Option<nat>)
    ensures address == Parsed(msg, id)
  {
    hide Resolves, EndOf, Answered;
    if |msg| < HEADER {
      return None;
    }
    var gotId := ReadBe16(msg, 0);
    if gotId != id {
      return None;
    }
    var flags := ReadBe16(msg, 2);
    var questions := ReadBe16(msg, 4);
    var answers := ReadBe16(msg, 6);
    if !Answered(flags) {
      return None;
    }
    var at: nat := HEADER;
    for i := 0 to questions
      invariant QuestionsEnd(msg, HEADER, questions) == QuestionsEnd(msg, at, questions - i)
    {
      var ok, end := SkipName(msg, at);
      if !ok {
        return None;
      }
      if end + 4 > |msg| {
        return None;
      }
      at := end + 4;
    }
    for i := 0 to answers
      invariant Parsed(msg, id) == AddressAt(msg, at, answers - i)
    {
      var ok, end := SkipName(msg, at);
      if !ok {
        return None;
      }
      if end + 10 > |msg| {
        return None;
      }
      var kind := ReadBe16(msg, end);
      var klass := ReadBe16(msg, end + 2);
      var length := ReadBe16(msg, end + 8);
      at := end + 10;
      if at + length > |msg| {
        return None;
      }
      if kind == TYPE_A && klass == CLASS_IN && length == 4 {
        var value := msg[at] as nat * 0x100_0000 + msg[at + 1] as nat * 0x1_0000 + msg[at + 2] as nat * 0x100
                     + msg[at + 3] as nat;
        return Some(value);
      }
      at := at + length;
    }
    return None;
  }

  // ----- serialised responses

  /** Every name up to the first address resolves within the step limit. */
  predicate QuestionsResolve(msg: seq<byte>, at: nat, qs: seq<Question>)
    requires LegalQuestions(qs)
    decreases |qs|
  {
    qs == []
    || (Resolves(msg, at, MAX_STEPS) && QuestionsResolve(msg, at + |QuestionBytes(qs[0])|, qs[1..]))
  }

  predicate AnswersResolve(msg: seq<byte>, at: nat, rs: seq<Record>)
    requires LegalRecords(rs)
    decreases |rs|
  {
    rs == []
    || (Resolves(msg, at, MAX_STEPS)
        && (IsAddress(rs[0]) || AnswersResolve(msg, at + |RecordBytes(rs[0])|, rs[1..])))
  }

  lemma Suffix(msg: seq<byte>, at: nat, a: seq<byte>, b: seq<byte>)
    requires at <= |msg| && msg[at..] == a + b
    ensures at + |a| <= |msg| && msg[at + |a|..] == b && msg[at..at + |a|] == a
  {
    assert msg[at..][|a|..] == msg[at + |a|..];
    assert msg[at..][..|a|] == msg[at..at + |a|];
  }

  lemma {:induction false} QuestionsSkipped(msg: seq<byte>, at: nat, qs: seq<Question>, rest: seq<byte>)
    requires LegalQuestions(qs) && at <= |msg| && msg[at..] == AllQuestions(qs) + rest
    requires QuestionsResolve(msg, at, qs)
    ensures QuestionsEnd(msg, at, |qs|) == Some(at + |AllQuestions(qs)|)
    decreases |qs|
  {
    hide Resolves, EndOf, Wire, LegalName;
    if qs != [] {
      var q := qs[0];
      var later := AllQuestions(qs[1..]) + rest;
      assert msg[at..] == Wire(q.name) + (q.typeAndClass + later);
      assert msg[at..] == QuestionBytes(q) + later;
      WireEnds(msg, at, q.name, q.typeAndClass + later);
      Suffix(msg, at, QuestionBytes(q), later);
      QuestionsSkipped(msg, at + |QuestionBytes(q)|, qs[1..], rest);
    }
  }

  /** The fields the parser reads at a record are the record's own. */
  predicate Reads(msg: seq<byte>, at: nat, r: Record)
    requires LegalRecord(r)
  {
    var end := at + |Wire(r.name)|;
    && NameEnd(msg, at) == Some(end)
    && at + |RecordBytes(r)| == end + 10 + |r.data| <= |msg|
    && U16(msg, end) == r.kind && U16(msg, end + 2) == r.klass && U16(msg, end + 8) == |r.data|
    && msg[end + 10..end + 10 + |r.data|] == r.data
  }

  lemma {:induction false} RecordRead(msg: seq<byte>, at: nat, r: Record, later: seq<byte>)
    requires LegalRecord(r) && at <= |msg| && msg[at..] == RecordBytes(r) + later
    requires Resolves(msg, at, MAX_STEPS)
    ensures Reads(msg, at, r)
    ensures at + |RecordBytes(r)| <= |msg| && msg[at + |RecordBytes(r)|..] == later
  {
    hide Resolves, EndOf, Wire, LegalName, RecordTail, U16;
    assert msg[at..] == Wire(r.name) + (RecordTail(r) + later);
    WireEnds(msg, at, r.name, RecordTail(r) + later);
    Suffix(msg, at, Wire(r.name), RecordTail(r) + later);
    TailRead(msg, at + |Wire(r.name)|, r, later);
    Suffix(msg, at, RecordBytes(r), later);
  }

  lemma {:induction false} AnswersRead(msg: seq<byte>, at: nat, rs: seq<Record>, rest: seq<byte>)
    requires LegalRecords(rs) && at <= |msg| && msg[at..] == AllRecords(rs) + rest
    requires AnswersResolve(msg, at, rs)
    ensures AddressAt(msg, at, |rs|) == FirstAddress(rs)
    decreases |rs|
  {
    hide Resolves, EndOf, Wire, LegalRecord, RecordBytes, AllRecords, Be32, Reads, NameEnd, U16;
    if rs != [] {
      hide AddressAt;
      RecordsStep(rs, rest);
      RecordRead(msg, at, rs[0], AllRecords(rs[1..]) + rest);
      AddressStep(msg, at, rs[0], |rs|);
      if !IsAddress(rs[0]) {
        AnswersRead(msg, at + |RecordBytes(rs[0])|, rs[1..], rest);
      }
    }
  }

  lemma RecordsStep(rs: seq<Record>, rest: seq<byte>)
    requires LegalRecords(rs) && rs != []
    ensures AllRecords(rs) + rest == RecordBytes(rs[0]) + (AllRecords(rs[1..]) + rest)
  {
    hide RecordBytes, LegalRecord;
  }

  lemma AddressStep(msg: seq<byte>, at: nat, r: Record, count: nat)
    requires LegalRecord(r) && count > 0 && Reads(msg, at, r)
    ensures AddressAt(msg, at, count) ==
      if IsAddress(r) then Some(Be32(r.data)) else AddressAt(msg, at + |RecordBytes(r)|, count - 1)
  {
    hide NameEnd, U16, Wire, LegalName, RecordBytes, Be32;
  }

  lemma {:induction false} TailRead(msg: seq<byte>, at: nat, r: Record, later: seq<byte>)
    requires LegalRecord(r) && at <= |msg| && msg[at..] == RecordTail(r) + later
    ensures |RecordTail(r)| == 10 + |r.data| && at + 10 + |r.data| <= |msg|
    ensures U16(msg, at) == r.kind && U16(msg, at + 2) == r.klass && U16(msg, at + 8) == |r.data|
    ensures msg[at + 10..at + 10 + |r.data|] == r.data
  {
    hide LegalName;
    var t := RecordTail(r) + later;
    assert forall k :: 0 <= k < 10 ==> msg[at + k] == t[k];
    Suffix(msg, at, RecordTail(r), later);
    assert t[10..10 + |r.data|] == r.data;
  }

  lemma {:induction false} HeaderRead(r: Response, body: seq<byte>)
    requires LegalResponse(r)
    ensures
      var msg := HeaderBytes(r) + body;
      && U16(msg, 0) == r.id && U16(msg, 2) == r.flags
      && U16(msg, 4) == |r.questions| && U16(msg, 6) == |r.answers|
      && msg[HEADER..] == body
  {
    hide LegalQuestions, LegalRecords;
  }

  lemma FlagsAnswered(flags: nat)
    requires flags < 0x1_0000
    ensures Answered(flags) <==> flags >= 0x8000 && flags % 16 == 0
  {
  }

  /** A serialised response gives the address of its first A record of class IN, if it has one. */
  lemma {:induction false} ResponseParsed(r: Response, id: nat)
    requires LegalResponse(r)
    requires QuestionsResolve(Serialise(r), HEADER, r.questions)
    requires AnswersResolve(Serialise(r), HEADER + |AllQuestions(r.questions)|, r.answers)
    ensures Parsed(Serialise(r), id) ==
      if id == r.id && r.flags >= 0x8000 && r.flags % 16 == 0 then FirstAddress(r.answers) else None
  {
    hide QuestionsResolve, AnswersResolve, AllQuestions, AllRecords, HeaderBytes, QuestionsEnd, AddressAt, Answered;
    var msg := Serialise(r);
    FlagsAnswered(r.flags);
    var tail := AllRecords(r.answers) + r.rest;
    HeaderRead(r, AllQuestions(r.questions) + tail);
    QuestionsSkipped(msg, HEADER, r.questions, tail);
    Suffix(msg, HEADER, AllQuestions(r.questions), tail);
    AnswersRead(msg, HEADER + |AllQuestions(r.questions)|, r.answers, r.rest);
  }

  // ----- and back: what an accepted message must consist of

  lemma {:induction false} NameFrom(msg: seq<byte>, at: nat) returns (name: Name)
    requires NameEnd(msg, at).Some?
    ensures LegalName(name) && NameEnd(msg, at) == Some(at + |Wire(name)|)
    ensures at + |Wire(name)| <= |msg| && msg[at..] == Wire(name) + msg[at + |Wire(name)|..]
  {
    hide Resolves, EndOf, Wire, LegalName;
    name := NameAt(msg, at, MAX_STEPS);
    SkippedIsName(msg, at, MAX_STEPS);
    WireEnds(msg, at, name, msg[at + |Wire(name)|..]);
  }

  lemma {:induction false} QuestionFrom(msg: seq<byte>, at: nat) returns (q: Question)
    requires NameEnd(msg, at).Some? && NameEnd(msg, at).value + 4 <= |msg|
    ensures LegalQuestion(q) && at + |QuestionBytes(q)| == NameEnd(msg, at).value + 4
    ensures msg[at..] == QuestionBytes(q) + msg[NameEnd(msg, at).value + 4..]
  {
    hide NameEnd, Wire, LegalName;
    var name := NameFrom(msg, at);
    var end := NameEnd(msg, at).value;
    q := Question(name, msg[end..end + 4]);
    Joined(msg, at, Wire(name), q.typeAndClass);
  }

  lemma {:induction false} QuestionsFrom(msg: seq<byte>, at: nat, count: nat) returns (qs: seq<Question>)
    requires at <= |msg| && QuestionsEnd(msg, at, count).Some?
    ensures LegalQuestions(qs) && |qs| == count
    ensures at + |AllQuestions(qs)| == QuestionsEnd(msg, at, count).value <= |msg|
    ensures msg[at..] == AllQuestions(qs) + msg[QuestionsEnd(msg, at, count).value..]
    decreases count
  {
    hide NameEnd, QuestionBytes, LegalQuestion;
    if count == 0 {
      return [];
    }
    var q := QuestionFrom(msg, at);
    var later := QuestionsFrom(msg, NameEnd(msg, at).value + 4, count - 1);
    qs := [q] + later;
    QuestionsCons(q, later);
    hide AllQuestions, LegalQuestions;
    Joined(msg, at, QuestionBytes(q), AllQuestions(later));
  }

  lemma QuestionsCons(q: Question, later: seq<Question>)
    requires LegalQuestion(q) && LegalQuestions(later)
    ensures LegalQuestions([q] + later) && AllQuestions([q] + later) == QuestionBytes(q) + AllQuestions(later)
  {
    hide QuestionBytes, LegalQuestion;
    assert ([q] + later)[1..] == later;
  }

  lemma RecordsCons(r: Record, later: seq<Record>)
    requires LegalRecord(r) && LegalRecords(later)
    ensures LegalRecords([r] + later) && AllRecords([r] + later) == RecordBytes(r) + AllRecords(later)
  {
    hide RecordBytes, LegalRecord;
    assert ([r] + later)[1..] == later;
  }

  lemma {:induction false} TailFrom(msg: seq<byte>, end: nat, name: Name) returns (r: Record)
    requires LegalName(name) && end + 10 <= |msg| && end + 10 + U16(msg, end + 8) <= |msg|
    ensures LegalRecord(r) && r.name == name && end + |RecordTail(r)| == end + 10 + |r.data| <= |msg|
    ensures msg[end..] == RecordTail(r) + msg[end + |RecordTail(r)|..]
  {
    hide LegalName;
    var data := end + 10;
    var stop := data + U16(msg, end + 8);
    r := Record(name, U16(msg, end), U16(msg, end + 2), msg[end + 4..end + 8], msg[data..stop]);
    assert Be16(r.kind) == msg[end..end + 2] && Be16(r.klass) == msg[end + 2..end + 4];
    assert Be16(|r.data|) == msg[end + 8..end + 10];
    hide Be16, U16;
    assert RecordTail(r) == msg[end..stop];
  }

  lemma {:induction false} RecordFrom(msg: seq<byte>, at: nat) returns (r: Record)
    requires at <= |msg| && NameEnd(msg, at).Some?
    requires
      var end := NameEnd(msg, at).value;
      end + 10 <= |msg| && end + 10 + U16(msg, end + 8) <= |msg|
    ensures LegalRecord(r) && Reads(msg, at, r)
    ensures at + |RecordBytes(r)| <= |msg| && msg[at..] == RecordBytes(r) + msg[at + |RecordBytes(r)|..]
  {
    hide NameEnd, Wire, LegalName, RecordTail, U16;
    var name := NameFrom(msg, at);
    var end := NameEnd(msg, at).value;
    r := TailFrom(msg, end, name);
    Joined(msg, at, Wire(name), RecordTail(r));
    TailRead(msg, end, r, msg[end + |RecordTail(r)|..]);
  }

  lemma {:induction false} AnswersFrom(msg: seq<byte>, at: nat, count: nat) returns (rs: seq<Record>, rest: seq<byte>)
    requires at <= |msg| && AddressAt(msg, at, count).Some?
    ensures LegalRecords(rs) && 0 < |rs| <= count
    ensures at + |AllRecords(rs)| <= |msg| && rest == msg[at + |AllRecords(rs)|..]
    ensures msg[at..] == AllRecords(rs) + rest
    ensures FirstAddress(rs) == AddressAt(msg, at, count) && IsAddress(rs[|rs| - 1])
    decreases count
  {
    hide LegalRecord, RecordBytes, Be32, Reads, NameEnd, U16, LegalRecords, AllRecords;
    var r := RecordFrom(msg, at);
    hide AddressAt;
    AddressStep(msg, at, r, count);
    var next := at + |RecordBytes(r)|;
    var later := [];
    NoRecords();
    rest := msg[next..];
    if !IsAddress(r) {
      later, rest := AnswersFrom(msg, next, count - 1);
    }
    rs := [r] + later;
    RecordsCons(r, later);
    Joined(msg, at, RecordBytes(r), AllRecords(later));
    assert rs[1..] == later;
  }

  lemma NoRecords()
    ensures LegalRecords([]) && AllRecords([]) == []
  {
  }

  lemma HeaderWords(msg: seq<byte>)
    requires |msg| >= HEADER
    ensures U16(msg, 0) == msg[0] as nat * 256 + msg[1] as nat && U16(msg, 4) == msg[4] as nat * 256 + msg[5] as nat
    ensures U16(msg, 6) == msg[6] as nat * 256 + msg[7] as nat
    ensures Answered(U16(msg, 2)) <==> msg[2] as nat >= 128 && msg[3] as nat % 16 == 0
  {
    AnsweredBytes(msg[2], msg[3]);
  }

  /**
   An address is only ever taken from a message that consists of a header, the announced
   questions and records ending in the first A record of class IN.
   */
  lemma {:induction false} ParsedFrom(msg: seq<byte>, id: nat)
    returns (qs: seq<Question>, rs: seq<Record>, rest: seq<byte>)
    requires Parsed(msg, id).Some?
    ensures |msg| >= 12 && msg[0] as nat * 256 + msg[1] as nat == id && msg[2] as nat >= 128 && msg[3] as nat % 16 == 0
    ensures LegalQuestions(qs) && |qs| == msg[4] as nat * 256 + msg[5] as nat
    ensures LegalRecords(rs) && 0 < |rs| <= msg[6] as nat * 256 + msg[7] as nat
    ensures msg == msg[..HEADER] + (AllQuestions(qs) + (AllRecords(rs) + rest))
    ensures FirstAddress(rs) == Parsed(msg, id) && HoldsAddress(rs[|rs| - 1])
  {
    hide LegalQuestions, LegalRecords, AllQuestions, AllRecords, QuestionsEnd, AddressAt, Answered, U16, FirstAddress;
    HeaderWords(msg);
    qs := QuestionsFrom(msg, HEADER, U16(msg, 4));
    var at := QuestionsEnd(msg, HEADER, U16(msg, 4)).value;
    rs, rest := AnswersFrom(msg, at, U16(msg, 6));
    assert msg == msg[..HEADER] + msg[HEADER..];
  }
}
