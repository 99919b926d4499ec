/** The duplicate-field scan that runs before a topology document is decoded. The decoder turns the
    document into tokens and checks its grammar; the scan walks the tokens recursively and keeps
    one set of field names per object. */
module JsonScan {
  import opened Text

  datatype Token = BeginObject | EndObject | BeginArray | EndArray | Str(text: string) | Scalar(text: string)

  predicate IsEnd(t: Token) { t.EndObject? || t.EndArray? }

  /** json.Decoder: the tokens still to come before the end of input or its first syntax error. */
  class Decoder {
    var rest: seq<Token>

    constructor (tokens: seq<Token>)
      ensures rest == tokens
    {
      rest := tokens;
    }

    method NextToken() returns (t: Option<Token>)
      modifies this
      ensures t == if old(rest) == [] then None else Some(old(rest)[0])
      ensures rest == if old(rest) == [] then [] else old(rest)[1..]
    {
      if rest == [] { return None; }
      t := Some(rest[0]);
      rest := rest[1..];
    }

    predicate More()
      reads this
    {
      Continues(rest)
    }
  }

  predicate Continues(ts: seq<Token>) { ts != [] && !IsEnd(ts[0]) }

  // ---------------------------------------------------------------- what a scan yields

  /** The tokens left after scanning one value, or None when the scan reports an error. The scan
      that does not reject repeated names shows where values end. */
  function Scan(ts: seq<Token>, reject: bool := true): (r: Option<seq<Token>>)
    ensures r.Some? ==> |r.value| < |ts|
    decreases |ts|, 0
  {
    if ts == [] then None
    else match ts[0]
      case BeginObject => ScanMembers(ts[1..], {}, reject)
      case BeginArray => ScanElements(ts[1..], reject)
      case EndObject => None
      case EndArray => None
      case Str(_) => Some(ts[1..])
      case Scalar(_) => Some(ts[1..])
  }

  function ScanMembers(ts: seq<Token>, seen: set<string>, reject: bool := true): (r: Option<seq<Token>>)
    ensures r.Some? ==> |r.value| < |ts|
    decreases |ts|, 1
  {
    if !Continues(ts) then (if ts == [] then None else Some(ts[1..]))
    else if !ts[0].Str? || (reject && ts[0].text in seen) then None
    else
      var value := Scan(ts[1..], reject);
      if value.None? then None else ScanMembers(value.value, seen + {ts[0].text}, reject)
  }

  function ScanElements(ts: seq<Token>, reject: bool := true): (r: Option<seq<Token>>)
    ensures r.Some? ==> |r.value| < |ts|
    decreases |ts|, 1
  {
    if !Continues(ts) then (if ts == [] then None else Some(ts[1..]))
    else
      var value := Scan(ts, reject);
      if value.None? then None else ScanElements(value.value, reject)
  }

  /** scanJSONValue, over any token stream. */
  method ScanValue(decoder: Decoder) returns (ok: bool)
    modifies decoder
    ensures ok <==> Scan(old(decoder.rest)).Some?
    ensures ok ==> decoder.rest == Scan(old(decoder.rest)).value
    ensures |decoder.rest| <= |old(decoder.rest)|
    decreases |decoder.rest|, 0
  {
    var token := decoder.NextToken();
    if token.None? { return false; }
    match token.value
    case Str(_) => ok := true;
    case Scalar(_) => ok := true;
    case EndObject => ok := false;
    case EndArray => ok := false;
    case BeginObject =>
      var seen: set<string> := {};
      while decoder.More()
        invariant |decoder.rest| < |old(decoder.rest)|
        invariant Scan(old(decoder.rest)) == ScanMembers(decoder.rest, seen)
        decreases |decoder.rest|
      {
        var key := decoder.NextToken();
        if !key.value.Str? || key.value.text in seen { return false; }
        seen := seen + {key.value.text};
        var scanned := ScanValue(decoder);
        if !scanned { return false; }
      }
      var last := decoder.NextToken();
      ok := last.Some?;
    case BeginArray =>
      while decoder.More()
        invariant |decoder.rest| < |old(decoder.rest)|
        invariant Scan(old(decoder.rest)) == ScanElements(decoder.rest)
        decreases |decoder.rest|
      {
        var scanned := ScanValue(decoder);
        if !scanned { return false; }
      }
      var last := decoder.NextToken();
      ok := last.Some?;
  }

  // ---------------------------------------------------------------- documents

  datatype Value = Text(text: string) | Plain(text: string) | Object(members: seq<Member>) | Array(elements: seq<Value>)
  datatype Member = Member(name: string, value: Value)

  function Tokens(v: Value): (ts: seq<Token>)
    ensures ts != [] && !IsEnd(ts[0])
    decreases v, 0
  {
    match v
    case Text(s) => [Str(s)]
    case Plain(s) => [Scalar(s)]
    case Object(ms) => [BeginObject] + MemberTokens(ms) + [EndObject]
    case Array(es) => [BeginArray] + ElementTokens(es) + [EndArray]
  }

  function MemberTokens(ms: seq<Member>): seq<Token>
    decreases ms, 1
  {
    if ms == [] then [] else [Str(ms[0].name)] + Tokens(ms[0].value) + MemberTokens(ms[1..])
  }

  function ElementTokens(es: seq<Value>): seq<Token>
    decreases es, 1
  {
    if es == [] then [] else Tokens(es[0]) + ElementTokens(es[1..])
  }

  /** No object at any depth repeats a field name. */
  ghost predicate UniqueNames(v: Value) {
    match v
    case Text(_) => true
    case Plain(_) => true
    case Object(ms) => DistinctNames(ms) && forall i :: 0 <= i < |ms| ==> UniqueNames(ms[i].value)
    case Array(es) => forall i :: 0 <= i < |es| ==> UniqueNames(es[i])
  }

  ghost predicate DistinctNames(ms: seq<Member>) {
    forall i, j :: 0 <= i < j < |ms| ==> ms[i].name != ms[j].name
  }

  /** The members can follow the names already seen in their object. */
  ghost predicate Admissible(ms: seq<Member>, seen: set<string>) {
    && DistinctNames(ms)
    && forall i :: 0 <= i < |ms| ==> ms[i].name !in seen && UniqueNames(ms[i].value)
  }

  ghost predicate AllUnique(es: seq<Value>) {
    forall i :: 0 <= i < |es| ==> UniqueNames(es[i])
  }

  lemma AdmissibleStep(ms: seq<Member>, seen: set<string>)
    requires ms != []
    ensures Admissible(ms, seen) <==>
      ms[0].name !in seen && UniqueNames(ms[0].value) && Admissible(ms[1..], seen + {ms[0].name})
  {
    var tail := ms[1..];
    assert forall i :: 0 <= i < |tail| ==> tail[i] == ms[i + 1];
    if Admissible(tail, seen + {ms[0].name}) && ms[0].name !in seen && UniqueNames(ms[0].value) {
      forall i, j | 0 <= i < j < |ms| ensures ms[i].name != ms[j].name {
        assert ms[j] == tail[j - 1];
        if i > 0 { assert ms[i] == tail[i - 1]; }
      }
      forall i | 0 <= i < |ms| ensures ms[i].name !in seen && UniqueNames(ms[i].value) {
        if i > 0 { assert ms[i] == tail[i - 1]; }
      }
    }
  }

  /** A value followed by any tokens: the scan consumes exactly the value's tokens when no object in
      it repeats a field name, and reports an error otherwise (section 4 of RFC 8259). Without the
      rejection it consumes every value's tokens. */
  lemma {:induction false} ScanIsExact(v: Value, rest: seq<Token>, reject: bool := true)
    ensures Scan(Tokens(v) + rest, reject) == if reject ==> UniqueNames(v) then Some(rest) else None
    decreases v, 0
  {
    var ts := Tokens(v) + rest;
    match v
    case Text(s) => assert ts[1..] == rest;
    case Plain(s) => assert ts[1..] == rest;
    case Object(ms) =>
      assert ts[1..] == MemberTokens(ms) + ([EndObject] + rest);
      MembersScan(ms, {}, rest, reject);
    case Array(es) =>
      assert ts[1..] == ElementTokens(es) + ([EndArray] + rest);
      ElementsScan(es, rest, reject);
  }

  lemma {:induction false} MembersScan(ms: seq<Member>, seen: set<string>, rest: seq<Token>, reject: bool)
    ensures ScanMembers(MemberTokens(ms) + ([EndObject] + rest), seen, reject) ==
            if reject ==> Admissible(ms, seen) then Some(rest) else None
    decreases ms, 1
  {
    var ts := MemberTokens(ms) + ([EndObject] + rest);
    if ms == [] {
      assert ts == [EndObject] + rest && ts[1..] == rest;
    } else {
      var tail := MemberTokens(ms[1..]) + ([EndObject] + rest);
      assert ts[0] == Str(ms[0].name) && ts[1..] == Tokens(ms[0].value) + tail;
      ScanIsExact(ms[0].value, tail, reject);
      AdmissibleStep(ms, seen);
      MembersScan(ms[1..], seen + {ms[0].name}, rest, reject);
    }
  }

  lemma {:induction false} ElementsScan(es: seq<Value>, rest: seq<Token>, reject: bool)
    ensures ScanElements(ElementTokens(es) + ([EndArray] + rest), reject) ==
            if reject ==> AllUnique(es) then Some(rest) else None
    decreases es, 1
  {
    var ts := ElementTokens(es) + ([EndArray] + rest);
    if es == [] {
      assert ts == [EndArray] + rest && ts[1..] == rest;
    } else {
      var tail := ElementTokens(es[1..]) + ([EndArray] + rest);
      assert ts == Tokens(es[0]) + tail && ts[0] == Tokens(es[0])[0];
      ScanIsExact(es[0], tail, reject);
      ElementsScan(es[1..], rest, reject);
      assert AllUnique(es) <==> UniqueNames(es[0]) && AllUnique(es[1..]) by {
        assert forall i :: 0 <= i < |es| - 1 ==> es[1..][i] == es[i + 1];
        if UniqueNames(es[0]) && AllUnique(es[1..]) {
          forall i | 0 <= i < |es| ensures UniqueNames(es[i]) { if i > 0 { assert es[i] == es[1..][i - 1]; } }
        }
      }
    }
  }

  /** A document's tokens tell where it ends: no document's are a proper prefix of another's. */
  lemma TokensArePrefixFree(v: Value, w: Value, rest: seq<Token>)
    requires Tokens(v) + rest == Tokens(w)
    ensures rest == []
  {
    ScanIsExact(v, rest, false);
    ScanIsExact(w, [], false);
    assert Tokens(w) + [] == Tokens(w);
  }
}
