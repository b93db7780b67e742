/** Serveur/src/Protocol.cpp: the line-oriented TCP text protocol. A message
    is a type word followed by key=value parameters, e.g.
    `CONNECT_OK id=1 token=5f udp_port=4243`. The parameters live in a
    std::map, modelled as an association list kept in strictly increasing key
    order. */
module TextProtocol {
  import opened Wrappers

  /** The characters std::istream's >> skips: space, \t, \n, \v, \f, \r. */
  predicate IsSpace(c: char) {
    c == ' ' || c == '\t' || c == '\n' || c == '\r' || c as int == 11 || c as int == 12
  }

  predicate NoSpace(s: string) {
    forall i :: 0 <= i < |s| ==> !IsSpace(s[i])
  }

  /** std::string's operator<: lexicographic, a proper prefix first. */
  predicate Less(a: string, b: string)
    decreases |a|
  {
    |b| > 0 && (|a| == 0 || a[0] < b[0] || (a[0] == b[0] && Less(a[1..], b[1..])))
  }

  lemma LessIrreflexive(a: string)
    ensures !Less(a, a)
  {
  }

  lemma LessTransitive(a: string, b: string, c: string)
    requires Less(a, b) && Less(b, c)
    ensures Less(a, c)
  {
  }

  lemma LessAsymmetric(a: string, b: string)
    requires Less(a, b)
    ensures !Less(b, a)
  {
  }

  lemma {:induction false} LessTotal(a: string, b: string)
    requires a != b
    ensures Less(a, b) || Less(b, a)
  {
    if |a| > 0 && |b| > 0 && a[0] == b[0] {
      assert a == [a[0]] + a[1..];
      assert b == [b[0]] + b[1..];
      LessTotal(a[1..], b[1..]);
    }
  }

  predicate SortedKeys(ps: seq<(string, string)>) {
    forall i, j :: 0 <= i < j < |ps| ==> Less(ps[i].0, ps[j].0)
  }

  /** A std::map<std::string, std::string>: keys strictly increasing. */
  type Params = ps: seq<(string, string)> | SortedKeys(ps) witness []

  datatype Message = Message(msgType: string, params: Params)

  /** params.find(key). */
  function Lookup(ps: seq<(string, string)>, k: string): Option<string> {
    if ps == [] then None
    else if ps[0].0 == k then Some(ps[0].1)
    else Lookup(ps[1..], k)
  }

  lemma {:induction false} LookupAbsent(ps: Params, k: string)
    requires forall i :: 0 <= i < |ps| ==> ps[i].0 != k
    ensures Lookup(ps, k) == None
  {
    if ps != [] {
      LookupAbsent(ps[1..], k);
    }
  }

  /** Every key of the result is k or a key of ps. */
  lemma {:induction false} InsertKeys(ps: Params, k: string, v: string, lo: string)
    requires Less(lo, k) && forall i :: 0 <= i < |ps| ==> Less(lo, ps[i].0)
    ensures forall i :: 0 <= i < |Insert(ps, k, v)| ==> Less(lo, Insert(ps, k, v)[i].0)
    decreases |ps|, 1
  {
    if ps != [] && ps[0].0 != k && !Less(k, ps[0].0) {
      InsertKeys(ps[1..], k, v, lo);
    }
  }

  /** params[key] = value: overwrite the key's value, or add the key in order. */
  function Insert(ps: Params, k: string, v: string): (r: Params)
    ensures Lookup(r, k) == Some(v)
    ensures forall j :: j != k ==> Lookup(r, j) == Lookup(ps, j)
    decreases |ps|, 0
  {
    if ps == [] then [(k, v)]
    else if ps[0].0 == k then
      assert forall i :: 1 <= i < |ps| ==> Less(ps[0].0, ps[i].0);
      [(k, v)] + ps[1..]
    else if Less(k, ps[0].0) then
      assert forall i :: 0 <= i < |ps| ==> Less(k, ps[i].0) by {
        forall i | 0 <= i < |ps| ensures Less(k, ps[i].0) {
          if i > 0 {
            LessTransitive(k, ps[0].0, ps[i].0);
          }
        }
      }
      [(k, v)] + ps
    else
      LessTotal(k, ps[0].0);
      var tail: Params := ps[1..];
      InsertKeys(tail, k, v, ps[0].0);
      var r := [ps[0]] + Insert(tail, k, v);
      assert SortedKeys(r);
      r
  }

  /** Inserting a key above every present key appends it. */
  lemma {:induction false} InsertGreatest(ps: Params, k: string, v: string)
    requires forall i :: 0 <= i < |ps| ==> Less(ps[i].0, k)
    ensures Insert(ps, k, v) == ps + [(k, v)]
  {
    if ps != [] {
      LessAsymmetric(ps[0].0, k);
      LessIrreflexive(k);
      var tail: Params := ps[1..];
      InsertGreatest(tail, k, v);
      assert ps == [ps[0]] + tail;
    }
  }

  /** The number of leading non-space characters. */
  function WordLen(s: string): (n: nat)
    ensures n <= |s|
    ensures forall i :: 0 <= i < n ==> !IsSpace(s[i])
    ensures n < |s| ==> IsSpace(s[n])
  {
    if s == [] || IsSpace(s[0]) then 0 else 1 + WordLen(s[1..])
  }

  /** The words successive `>>` extractions read: maximal runs of non-space
      characters. */
  function Tokens(s: string): (ts: seq<string>)
    ensures forall i :: 0 <= i < |ts| ==> ts[i] != [] && NoSpace(ts[i])
    decreases |s|
  {
    if s == [] then []
    else if IsSpace(s[0]) then Tokens(s[1..])
    else
      var n := WordLen(s);
      [s[..n]] + Tokens(s[n..])
  }

  /** find('='). */
  function FindEq(s: string): (r: Option<nat>)
    ensures r.Some? ==> r.value < |s| && s[r.value] == '=' && forall i :: 0 <= i < r.value ==> s[i] != '='
    ensures r.None? ==> forall i :: 0 <= i < |s| ==> s[i] != '='
  {
    if s == [] then None
    else if s[0] == '=' then Some(0)
    else match FindEq(s[1..])
      case None => None
      case Some(p) => Some(p + 1)
  }

  /** The key and value of a parameter token: before and after its first '='. */
  function KeyValue(tok: string): Option<(string, string)> {
    match FindEq(tok)
    case None => None
    case Some(p) => Some((tok[..p], tok[p + 1..]))
  }

  /** The parameters after reading the given tokens in order; a token without
      '=' is skipped, a repeated key takes the later value. */
  function ParamsOf(toks: seq<string>): Params {
    if toks == [] then []
    else
      var ps := ParamsOf(toks[..|toks| - 1]);
      match KeyValue(toks[|toks| - 1])
      case None => ps
      case Some((k, v)) => Insert(ps, k, v)
  }

  /** What parse makes of a line: the first word is the type (empty for a
      blank line), the following words are parameters. */
  function Parsed(line: string): Message {
    var toks := Tokens(line);
    if toks == [] then Message("", []) else Message(toks[0], ParamsOf(toks[1..]))
  }

  /** Message::parse. */
  method Parse(line: string) returns (m: Message)
    ensures m == Parsed(line)
  {
    var toks := Tokens(line);
    if toks == [] {
      return Message("", []);
    }
    var params: Params := [];
    var i := 1;
    while i < |toks|
      invariant 1 <= i <= |toks|
      invariant params == ParamsOf(toks[1..i])
    {
      ParamsOfStep(toks, i);
      var param := toks[i];
      var equalPos := FindEq(param);
      if equalPos.Some? {
        var key := param[..equalPos.value];
        var value := param[equalPos.value + 1..];
        params := Insert(params, key, value);
      }
      i := i + 1;
    }
    assert toks[1..i] == toks[1..];
    m := Message(toks[0], params);
  }

  /** Reading one more token of the line. */
  lemma ParamsOfStep(toks: seq<string>, i: nat)
    requires 1 <= i < |toks|
    ensures ParamsOf(toks[1..i + 1]) ==
              match KeyValue(toks[i])
              case None => ParamsOf(toks[1..i])
              case Some((k, v)) => Insert(ParamsOf(toks[1..i]), k, v)
  {
    assert toks[1..i + 1][..i - 1] == toks[1..i];
  }

  /** The last value given for key k among the tokens, if any. */
  function LastValue(toks: seq<string>, k: string): Option<string> {
    if toks == [] then None
    else
      match KeyValue(toks[|toks| - 1])
      case Some((k', v)) =>
        if k' == k then Some(v) else LastValue(toks[..|toks| - 1], k)
      case None => LastValue(toks[..|toks| - 1], k)
  }

  /** Each key of a parsed line holds the value of its last occurrence, and
      tokens without '=' contribute nothing. */
  lemma {:induction false} LastOccurrenceWins(toks: seq<string>, k: string)
    ensures Lookup(ParamsOf(toks), k) == LastValue(toks, k)
  {
    if toks != [] {
      LastOccurrenceWins(toks[..|toks| - 1], k);
    }
  }

  /** A line with no words parses to the empty type and no parameters. */
  lemma BlankLine(line: string)
    requires forall i :: 0 <= i < |line| ==> IsSpace(line[i])
    ensures Parsed(line) == Message("", [])
  {
    assert Tokens(line) == [] by {
      BlankTokens(line);
    }
  }

  lemma {:induction false} BlankTokens(s: string)
    requires forall i :: 0 <= i < |s| ==> IsSpace(s[i])
    ensures Tokens(s) == []
  {
    if s != [] {
      BlankTokens(s[1..]);
    }
  }

  function ParamText(p: (string, string)): string {
    p.0 + "=" + p.1
  }

  /** " key=value" for each parameter, in key order. */
  function Join(ps: seq<(string, string)>): string {
    if ps == [] then "" else Join(ps[..|ps| - 1]) + " " + ParamText(ps[|ps| - 1])
  }

  /** What serialize produces: the type, the parameters, a newline. */
  function Rendered(m: Message): string {
    m.msgType + Join(m.params) + "\n"
  }

  /** Message::serialize. */
  method Serialize(m: Message) returns (s: string)
    ensures s == Rendered(m)
  {
    s := m.msgType;
    var i := 0;
    while i < |m.params|
      invariant 0 <= i <= |m.params|
      invariant s == m.msgType + Join(m.params[..i])
    {
      assert m.params[..i + 1][..i] == m.params[..i];
      var key, value := m.params[i].0, m.params[i].1;
      s := s + " " + key + "=" + value;
      i := i + 1;
    }
    assert m.params[..i] == m.params;
    s := s + "\n";
  }

  /** A message survives serialize-then-parse when its type is a non-empty word,
      its keys contain no space and no '=', and its values contain no space. */
  predicate RoundTrips(m: Message) {
    m.msgType != [] && NoSpace(m.msgType)
    && forall i :: 0 <= i < |m.params| ==>
         NoSpace(m.params[i].0) && NoSpace(m.params[i].1) && '=' !in m.params[i].0
  }

  lemma {:induction false} JoinCons(ps: seq<(string, string)>)
    requires ps != []
    ensures Join(ps) == " " + ParamText(ps[0]) + Join(ps[1..])
  {
    if |ps| > 1 {
      var n := |ps| - 1;
      JoinCons(ps[..n]);
      assert ps[..n][1..] == ps[1..][..n - 1];
    } else {
      assert ps[..0] == [] && ps[1..] == [];
    }
  }

  lemma {:induction false} WordLenOfWord(w: string, rest: string)
    requires NoSpace(w) && (rest == [] || IsSpace(rest[0]))
    ensures WordLen(w + rest) == |w|
  {
    if w != [] {
      assert (w + rest)[1..] == w[1..] + rest;
      WordLenOfWord(w[1..], rest);
    }
  }

  lemma TokensOfWord(w: string, rest: string)
    requires w != [] && NoSpace(w) && (rest == [] || IsSpace(rest[0]))
    ensures Tokens(w + rest) == [w] + Tokens(rest)
  {
    WordLenOfWord(w, rest);
    assert (w + rest)[..|w|] == w && (w + rest)[|w|..] == rest;
  }

  function ParamTexts(ps: seq<(string, string)>): seq<string> {
    seq(|ps|, i requires 0 <= i < |ps| => ParamText(ps[i]))
  }

  lemma {:induction false} TokensOfJoin(ps: seq<(string, string)>)
    requires forall i :: 0 <= i < |ps| ==> NoSpace(ps[i].0) && NoSpace(ps[i].1)
    ensures Tokens(Join(ps) + "\n") == ParamTexts(ps)
  {
    if ps == [] {
      assert Join(ps) + "\n" == "\n";
    } else {
      var w := ParamText(ps[0]);
      var rest := Join(ps[1..]) + "\n";
      TokensOfJoin(ps[1..]);
      JoinLineCons(ps);
      JoinLineStart(ps[1..]);
      NoSpaceParamText(ps[0]);
      TokensOfWord(w, rest);
      ParamTextsCons(ps);
    }
  }

  /** Join(ps) + "\n" starts with the blank in front of its first parameter,
      or is the newline alone. */
  lemma JoinLineStart(ps: seq<(string, string)>)
    ensures |Join(ps) + "\n"| > 0
    ensures (Join(ps) + "\n")[0] == ' ' || (Join(ps) + "\n")[0] == '\n'
  {
    if ps != [] {
      JoinCons(ps);
    }
  }

  lemma JoinLineCons(ps: seq<(string, string)>)
    requires ps != []
    ensures Join(ps) + "\n" == [' '] + (ParamText(ps[0]) + (Join(ps[1..]) + "\n"))
  {
    JoinCons(ps);
  }

  lemma NoSpaceParamText(p: (string, string))
    requires NoSpace(p.0) && NoSpace(p.1)
    ensures ParamText(p) != [] && NoSpace(ParamText(p))
  {
    assert ParamText(p)[|p.0|] == '=';
  }

  lemma ParamTextsCons(ps: seq<(string, string)>)
    requires ps != []
    ensures ParamTexts(ps) == [ParamText(ps[0])] + ParamTexts(ps[1..])
  {
  }

  /** A parameter token splits back at its first '=' when the key has none. */
  lemma KeyValueOfText(k: string, v: string)
    requires '=' !in k
    ensures KeyValue(ParamText((k, v))) == Some((k, v))
  {
    var tok := ParamText((k, v));
    assert FindEq(tok) == Some(|k|) by {
      assert tok[|k|] == '=';
      assert forall i :: 0 <= i < |k| ==> tok[i] == k[i];
    }
    assert tok[..|k|] == k && tok[|k| + 1..] == v;
  }

  lemma {:induction false} ParamsOfTexts(ps: Params)
    requires forall i :: 0 <= i < |ps| ==> '=' !in ps[i].0
    ensures ParamsOf(ParamTexts(ps)) == ps
  {
    if ps != [] {
      var n := |ps| - 1;
      var init: Params := ps[..n];
      var (k, v) := ps[n];
      ParamsOfTexts(init);
      ParamTextsSnoc(ps);
      ParamsOfSnoc(ParamTexts(init), ParamText((k, v)));
      KeyValueOfText(k, v);
      KeysBelowLast(ps);
      InsertGreatest(init, k, v);
      SnocSplit(ps);
    }
  }

  lemma ParamTextsSnoc(ps: seq<(string, string)>)
    requires ps != []
    ensures ParamTexts(ps) == ParamTexts(ps[..|ps| - 1]) + [ParamText(ps[|ps| - 1])]
  {
  }

  lemma ParamsOfSnoc(toks: seq<string>, t: string)
    ensures ParamsOf(toks + [t]) ==
              match KeyValue(t)
              case None => ParamsOf(toks)
              case Some((k, v)) => Insert(ParamsOf(toks), k, v)
  {
    assert (toks + [t])[..|toks|] == toks;
  }

  lemma KeysBelowLast(ps: Params)
    requires ps != []
    ensures forall i :: 0 <= i < |ps| - 1 ==> Less(ps[i].0, ps[|ps| - 1].0)
  {
  }

  /** parse(serialize(m)) == m for every message that RoundTrips. */
  lemma SerializeParseRoundTrip(m: Message)
    requires RoundTrips(m)
    ensures Parsed(Rendered(m)) == m
  {
    var rest := Join(m.params) + "\n";
    TokensOfJoin(m.params);
    if m.params != [] {
      JoinCons(m.params);
    }
    assert rest[0] == ' ' || rest[0] == '\n';
    assert Rendered(m) == m.msgType + rest;
    TokensOfWord(m.msgType, rest);
    ParamsOfTexts(m.params);
  }
}
