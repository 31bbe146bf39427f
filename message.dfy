/**
 * The datagrams the daemon exchanges with its clients.
 *
 * A request is matched against `id=\[([\d]*)\];name=\[(.*)\]` with Python's
 * `re.match`: the match is anchored at the start of the datagram but not at
 * its end, `[\d]` is an ASCII digit, and `.` is any character except a
 * newline. A reply renders `id=[%i];name=[%s];count=[%i]`.
 */
module Message {

  import opened Wrappers
  import opened Decimal

  const IdOpen: string := "id=["
  const NameOpen: string := "];name=["
  const CountOpen: string := "];count=["

  /** The fixed datagram sent back whenever a request cannot be answered. */
  const ErrorText: string := "Error occurred on message processing"

  predicate NoNewline(s: string) {
    forall i :: 0 <= i < |s| ==> s[i] != '\n'
  }

  /** Length of the run of digits at the start of `s`. */
  function LeadingDigits(s: string): (k: nat)
    ensures k <= |s| && AllDigits(s[..k])
    ensures k < |s| ==> !IsDigit(s[k])
  {
    if s == [] || !IsDigit(s[0]) then 0
    else
      var k := 1 + LeadingDigits(s[1..]);
      assert s[..k] == [s[0]] + s[1..][..k - 1];
      k
  }

  /** Length of the run of digits at the end of `s`. */
  function TrailingDigits(s: string): (k: nat)
    ensures k <= |s| && AllDigits(s[|s| - k..])
    ensures k < |s| ==> !IsDigit(s[|s| - k - 1])
  {
    if s == [] || !IsDigit(s[|s| - 1]) then 0
    else
      var init := s[..|s| - 1];
      var k := 1 + TrailingDigits(init);
      assert s[|s| - k..] == init[|init| - (k - 1)..] + [s[|s| - 1]];
      k
  }

  /** Length of the first line of `s`, the part `.` can match. */
  function LineLength(s: string): (n: nat)
    ensures n <= |s| && NoNewline(s[..n])
    ensures n < |s| ==> s[n] == '\n'
  {
    if s == [] || s[0] == '\n' then 0
    else
      var n := 1 + LineLength(s[1..]);
      assert s[..n] == [s[0]] + s[1..][..n - 1];
      n
  }

  /** Position of the last `]` in `s`. */
  function LastClose(s: string): (r: Option<nat>)
    ensures r.Some? ==> r.value < |s| && s[r.value] == ']'
    ensures r.Some? ==> forall j :: r.value < j < |s| ==> s[j] != ']'
    ensures r.None? ==> forall j :: 0 <= j < |s| ==> s[j] != ']'
  {
    if s == [] then None
    else if s[|s| - 1] == ']' then Some(|s| - 1)
    else LastClose(s[..|s| - 1])
  }

  /** A string of digits followed by a non-digit starts with exactly that run of digits. */
  lemma LeadingDigitsOf(d: string, x: string)
    requires AllDigits(d) && x != [] && !IsDigit(x[0])
    ensures LeadingDigits(d + x) == |d| && (d + x)[..|d|] == d
  {
    var s := d + x;
    var k := LeadingDigits(s);
    assert s[|d|] == x[0];
  }

  /** A string of digits preceded by a non-digit ends with exactly that run of digits. */
  lemma TrailingDigitsOf(x: string, d: string)
    requires AllDigits(d) && x != [] && !IsDigit(x[|x| - 1])
    ensures TrailingDigits(x + d) == |d| && (x + d)[|x|..] == d
  {
    var s := x + d;
    var k := TrailingDigits(s);
    assert s[|x| - 1] == x[|x| - 1];
  }

  lemma PrefixSplit(a: string, b: string, s: string)
    requires a + b <= s
    ensures a <= s && b <= s[|a|..]
  {
    assert s[..|a|] == (a + b)[..|a|];
    assert s[|a|..][..|b|] == (a + b)[|a|..];
  }

  /** The two groups of a successful match: the id digits and the name. */
  datatype Groups = Groups(digits: string, name: string)

  /** The text a match with groups `d` and `name` covers. */
  function Pattern(d: string, name: string): string {
    IdOpen + (d + (NameOpen + (name + "]")))
  }

  /** The regular expression matches a prefix of `msg` with groups `d` and `name`. */
  ghost predicate Matches(msg: string, d: string, name: string) {
    AllDigits(d) && NoNewline(name) && Pattern(d, name) <= msg
  }

  /**
   * The match `re.match` reports: the greedy `.*` makes the name the longest
   * one among all matches.
   */
  ghost predicate GreedyMatch(msg: string, d: string, name: string) {
    Matches(msg, d, name) &&
    forall d', name' :: Matches(msg, d', name') ==> |name'| <= |name|
  }

  /** `\[(.*)\]` after `name=`: the first line up to its last `]`. */
  function MatchName(body: string): Option<string> {
    var line := body[..LineLength(body)];
    match LastClose(line)
    case None => None
    case Some(j) => Some(line[..j])
  }

  /**
   * `re.match(r"id=\[([\d]*)\];name=\[(.*)\]", msg)`: every match it
   * reports is a match of the pattern (MatchCorrect adds that it is the
   * greedy one, and that a match is reported whenever one exists).
   */
  function Match(msg: string): (r: Option<Groups>)
    ensures r.Some? ==> Matches(msg, r.value.digits, r.value.name)
  {
    if !(IdOpen <= msg) then None
    else
      var rest := msg[|IdOpen|..];
      var k := LeadingDigits(rest);
      if !(NameOpen <= rest[k..]) then None
      else
        match MatchName(rest[k + |NameOpen|..])
        case None => None
        case Some(name) => Some(Groups(rest[..k], name))
  }

  lemma MatchNameSound(body: string)
    requires MatchName(body).Some?
    ensures NoNewline(MatchName(body).value) && MatchName(body).value + "]" <= body
  {
    var line := body[..LineLength(body)];
    var j := LastClose(line).value;
    assert line[..j] + "]" == body[..j + 1];
  }

  lemma MatchNameComplete(body: string, name: string)
    requires NoNewline(name) && name + "]" <= body
    ensures MatchName(body).Some?
    ensures |name| <= |MatchName(body).value|
    ensures name == MatchName(body).value[..|name|]
  {
    PrefixSplit(name, "]", body);
    assert body[|name|] == ']';
    var len := LineLength(body);
    if len == |name| {
      assert false;
    }
    var line := body[..len];
    assert line[|name|] == ']';
    var j := LastClose(line).value;
    assert line[..j][..|name|] == name;
  }

  /**
   * Any match of the pattern has the reported digits and a name no longer
   * than the reported one.
   */
  lemma MatchComplete(msg: string, d: string, name: string)
    requires Matches(msg, d, name)
    ensures Match(msg).Some?
    ensures Match(msg).value.digits == d
    ensures |name| <= |Match(msg).value.name|
    ensures name == Match(msg).value.name[..|name|]
  {
    PrefixSplit(IdOpen, d + (NameOpen + (name + "]")), msg);
    var rest := msg[|IdOpen|..];
    PrefixSplit(d, NameOpen + (name + "]"), rest);
    var after := rest[|d|..];
    PrefixSplit(NameOpen, name + "]", after);
    assert rest == d + after;
    LeadingDigitsOf(d, after);
    MatchNameComplete(after[|NameOpen|..], name);
  }

  /**
   * Match reports exactly the greedy match of the pattern, and nothing when
   * the pattern matches no prefix of `msg`.
   */
  lemma MatchCorrect(msg: string)
    ensures Match(msg).None? <==> forall d, name :: !Matches(msg, d, name)
    ensures forall d, name :: Match(msg) == Some(Groups(d, name)) <==> GreedyMatch(msg, d, name)
  {
    if Match(msg).Some? {
      var g := Match(msg).value;
      forall d', name' | Matches(msg, d', name') ensures |name'| <= |g.name| {
        MatchComplete(msg, d', name');
      }
      forall d, name | GreedyMatch(msg, d, name) ensures g == Groups(d, name) {
        MatchComplete(msg, d, name);
      }
    } else {
      forall d, name ensures !Matches(msg, d, name) {
        if Matches(msg, d, name) {
          MatchComplete(msg, d, name);
        }
      }
    }
  }

  datatype Failure = BadFormat | EmptyId | NameMismatch

  datatype Request = Request(id: nat, name: string)

  /**
   * Match the pattern, then `int()` the id group. The request keeps the name
   * group, and its id is written back as the id digits without leading zeros.
   */
  function Parse(msg: string): (r: Result<Request, Failure>)
    ensures r == Err(BadFormat) <==> Match(msg).None?
    ensures r == Err(EmptyId) <==> Match(msg).Some? && Match(msg).value.digits == []
    ensures r.Ok? ==> Match(msg).Some? && r.value.name == Match(msg).value.name
    ensures r.Ok? ==> Format(r.value.id) == StripZeros(Match(msg).value.digits)
  {
    match Match(msg)
    case None => Err(BadFormat)
    case Some(g) =>
      match ParseInt(g.digits)
      case None => Err(EmptyId)
      case Some(id) => Ok(Request(id, g.name))
  }

  /**
   * A request is accepted exactly when the pattern matches with a non-empty
   * id; the id is the value of the digits and the name is the greedy group.
   */
  lemma ParseCorrect(msg: string)
    ensures (forall d, name :: !Matches(msg, d, name)) <==> Parse(msg) == Err(BadFormat)
    ensures forall d, name :: GreedyMatch(msg, d, name) ==>
      Parse(msg) == if d == [] then Err(EmptyId) else Ok(Request(Value(d), name))
  {
    MatchCorrect(msg);
  }

  /** The fields of a successful reply. */
  datatype ReplyFields = ReplyFields(id: nat, name: string, count: nat)

  /** `"id=[%i];name=[%s];count=[%i]" % (id, name, count)`. */
  function Reply(f: ReplyFields): string {
    IdOpen + (Format(f.id) + (NameOpen + ReplyTail(f.name, f.count)))
  }

  /** The part of a reply after `name=[`. */
  function ReplyTail(name: string, count: nat): string {
    name + CountOpen + Format(count) + "]"
  }

  /** Reads `<name>];count=[<digits>]` back, finding the count from the end. */
  function DecodeTail(body: string): Option<(string, nat)> {
    if body == [] || body[|body| - 1] != ']' then None
    else
      var inner := body[..|body| - 1];
      var c := TrailingDigits(inner);
      var m := |inner| - c;
      if c == 0 || m < |CountOpen| || inner[m - |CountOpen|..m] != CountOpen then None
      else Some((inner[..m - |CountOpen|], Value(inner[m..])))
  }

  /**
   * Reads the fields back from a reply. The name may hold any character, so
   * the count is found from the end of the datagram.
   */
  function DecodeReply(s: string): Option<ReplyFields> {
    if !(IdOpen <= s) then None
    else
      var rest := s[|IdOpen|..];
      var k := LeadingDigits(rest);
      if k == 0 || !(NameOpen <= rest[k..]) then None
      else
        match DecodeTail(rest[k + |NameOpen|..])
        case None => None
        case Some((name, count)) => Some(ReplyFields(Value(rest[..k]), name, count))
  }

  lemma DecodeTailInverse(name: string, count: nat)
    ensures DecodeTail(ReplyTail(name, count)) == Some((name, count))
  {
    var dc := Format(count);
    var body := ReplyTail(name, count);
    var inner := body[..|body| - 1];
    assert inner == (name + CountOpen) + dc;
    TrailingDigitsOf(name + CountOpen, dc);
    var m := |inner| - |dc|;
    assert inner[..m] == name + CountOpen;
    assert inner[m - |CountOpen|..m] == CountOpen;
    assert inner[..m - |CountOpen|] == name;
    FormatValue(dc);
  }

  lemma Split(a: string, b: string)
    ensures (a + b)[..|a|] == a && (a + b)[|a|..] == b
  {
  }

  /** A reply determines its fields: decoding undoes formatting. */
  lemma DecodeReplyInverse(f: ReplyFields)
    ensures DecodeReply(Reply(f)) == Some(f)
  {
    var di := Format(f.id);
    var tail := ReplyTail(f.name, f.count);
    var after := NameOpen + tail;
    var rest := di + after;
    Split(IdOpen, rest);
    Split(di, after);
    Split(NameOpen, tail);
    LeadingDigitsOf(di, after);
    DecodeTailInverse(f.name, f.count);
    FormatValue(di);
  }

  /** The datagram the daemon sends for an outcome. */
  function ReplyText(r: Result<ReplyFields, Failure>): (s: string)
    ensures DecodeReply(s) == if r.Ok? then Some(r.value) else None
  {
    if r.Ok? then
      DecodeReplyInverse(r.value);
      Reply(r.value)
    else
      assert !(IdOpen <= ErrorText) by { assert ErrorText[0] != IdOpen[0]; }
      ErrorText
  }
}
