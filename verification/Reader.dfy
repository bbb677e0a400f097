/** The readers as the server runs them: a cursor that advances over a payload,
    and loops that fill the parameter lists, each proved against the read it
    stands for in `Wire` and `Frontend`. */
module Reader {
  import opened Text
  import opened Wire
  import opened Frontend

  datatype Outcome<+T> = Value(value: T) | Error(error: ReadError) | Panic
  {
    predicate IsFailure() {
      !Value?
    }

    function PropagateFailure<U>(): Outcome<U>
      requires IsFailure()
    {
      match this
      case Error(e) => Error(e)
      case Panic => Panic
    }

    function Extract(): T
      requires Value?
    {
      value
    }
  }

  function OutcomeOf<T>(r: Read<T>): Outcome<T> {
    match r
    case Got(v, _) => Value(v)
    case Failed(e) => Error(e)
    case Panicked => Panic
  }

  /** A list read whose first elements are already in hand. */
  function After<T>(done: seq<T>, r: Read<seq<T>>): Read<seq<T>> {
    match r
    case Got(xs, rest) => Got(done + xs, rest)
    case Failed(e) => Failed(e)
    case Panicked => Panicked
  }

  class ByteReader {
    const data: Text
    var pos: nat

    constructor (data: Text)
      ensures Valid() && Rest() == data
    {
      this.data := data;
      this.pos := 0;
    }

    ghost predicate Valid()
      reads this
    {
      pos <= |data|
    }

    /** The bytes not yet read. */
    ghost function Rest(): Text
      requires Valid()
      reads this
    {
      data[pos..]
    }

    method ReadNullString() returns (r: Outcome<Text>)
      requires Valid()
      modifies this
      ensures Valid() && r == OutcomeOf(NullString(old(Rest())))
      ensures r.Value? ==> Rest() == NullString(old(Rest())).rest
    {
      ghost var start := Rest();
      var buf: Text := [];
      while pos < |data|
        invariant Valid() && |buf| <= |start| && Rest() == start[|buf|..] && buf == start[..|buf|]
        invariant Find(start, NUL) == |buf| + Find(Rest(), NUL)
        decreases |data| - pos
      {
        var b := data[pos];
        pos := pos + 1;
        if b == NUL {
          return Value(buf);
        }
        assert start[|buf|..][1..] == start[|buf| + 1..];
        buf := buf + [b];
      }
      r := Error(EOF);
    }

    method ReadInt16() returns (r: Outcome<int>)
      requires Valid()
      modifies this
      ensures Valid() && r == OutcomeOf(Int16(old(Rest())))
      ensures r.Value? ==> Rest() == Int16(old(Rest())).rest
    {
      if |data| - pos < 2 {
        r := Error(if pos == |data| then EOF else UnexpectedEOF);
        pos := |data|;
      } else {
        r := Value(Signed(Uint16(data[pos..]), 16));
        pos := pos + 2;
      }
    }

    method ReadInt32() returns (r: Outcome<int>)
      requires Valid()
      modifies this
      ensures Valid() && r == OutcomeOf(Int32(old(Rest())))
      ensures r.Value? ==> Rest() == Int32(old(Rest())).rest
    {
      if |data| - pos < 4 {
        r := Error(if pos == |data| then EOF else UnexpectedEOF);
        pos := |data|;
      } else {
        r := Value(Signed(Uint32(data[pos..]), 32));
        pos := pos + 4;
      }
    }

    method ReadFull(n: nat) returns (r: Outcome<Text>)
      requires Valid()
      modifies this
      ensures Valid() && r == OutcomeOf(Bytes(old(Rest()), n))
      ensures r.Value? ==> Rest() == Bytes(old(Rest()), n).rest
    {
      if |data| - pos < n {
        r := Error(if pos == |data| then EOF else UnexpectedEOF);
        pos := |data|;
      } else {
        assert data[pos..pos + n] == data[pos..][..n];
        r := Value(data[pos..pos + n]);
        pos := pos + n;
      }
    }

    method ReadInt16s(n: nat) returns (r: Outcome<seq<int>>)
      requires Valid()
      modifies this
      ensures Valid() && r == OutcomeOf(Int16s(old(Rest()), n))
      ensures r.Value? ==> Rest() == Int16s(old(Rest()), n).rest
    {
      hide Int16;
      ghost var start := Rest();
      var xs: seq<int> := [];
      assert forall ys: seq<int> :: xs + ys == ys;
      for i := 0 to n
        invariant Valid() && |xs| == i
        invariant Int16s(start, n) == After(xs, Int16s(Rest(), n - i))
      {
        var x :- ReadInt16();
        assert forall ys :: xs + ([x] + ys) == (xs + [x]) + ys;
        xs := xs + [x];
      }
      assert xs + [] == xs;
      r := Value(xs);
    }

    method ReadInt32s(n: nat) returns (r: Outcome<seq<int>>)
      requires Valid()
      modifies this
      ensures Valid() && r == OutcomeOf(Int32s(old(Rest()), n))
      ensures r.Value? ==> Rest() == Int32s(old(Rest()), n).rest
    {
      hide Int32;
      ghost var start := Rest();
      var xs: seq<int> := [];
      assert forall ys: seq<int> :: xs + ys == ys;
      for i := 0 to n
        invariant Valid() && |xs| == i
        invariant Int32s(start, n) == After(xs, Int32s(Rest(), n - i))
      {
        var x :- ReadInt32();
        assert forall ys :: xs + ([x] + ys) == (xs + [x]) + ys;
        xs := xs + [x];
      }
      assert xs + [] == xs;
      r := Value(xs);
    }

    method ReadParameters(n: nat) returns (r: Outcome<Params>)
      requires Valid()
      modifies this
      ensures Valid() && r == OutcomeOf(Parameters(old(Rest()), n))
      ensures r.Value? ==> Rest() == Parameters(old(Rest()), n).rest
    {
      hide Int32, Bytes;
      ghost var start := Rest();
      var params: Params := [];
      assert forall ps: Params :: params + ps == ps;
      for i := 0 to n
        invariant Valid() && |params| == i
        invariant Parameters(start, n) == After(params, Parameters(Rest(), n - i))
      {
        var p: Option<Text> := None;
        var len :- ReadInt32();
        if len >= 0 {
          var v :- ReadFull(len);
          p := Some(v);
        }
        assert forall ps :: params + ([p] + ps) == (params + [p]) + ps;
        params := params + [p];
      }
      assert params + [] == params;
      r := Value(params);
    }
  }

  method ParseParse(payload: Text) returns (r: Outcome<Message>)
    ensures r == OutcomeOf(ReadParse(payload))
  {
    hide NullString, Int16, Int32s;
    var buf := new ByteReader(payload);
    var statement :- buf.ReadNullString();
    var query :- buf.ReadNullString();
    var count := buf.ReadInt16();
    if count == Error(EOF) {
      return Value(Parse(statement, query, []));
    }
    var n :- count;
    var oids: seq<int> := [];
    if n > 0 {
      oids :- buf.ReadInt32s(n);
    }
    r := Value(Parse(statement, query, oids));
  }

  method ParseBind(payload: Text) returns (r: Outcome<Message>)
    ensures r == OutcomeOf(ReadBind(payload))
  {
    hide NullString, Int16, Int16s, Parameters;
    var buf := new ByteReader(payload);
    var portal :- buf.ReadNullString();
    var statement :- buf.ReadNullString();
    var nf :- buf.ReadInt16();
    if nf < 0 {
      return Panic;
    }
    var formats :- buf.ReadInt16s(nf);
    var np :- buf.ReadInt16();
    if np < 0 {
      return Panic;
    }
    var params :- buf.ReadParameters(np);
    var results: seq<int> := [];
    var nr := buf.ReadInt16();
    if nr.Value? && nr.value > 0 {
      results :- buf.ReadInt16s(nr.value);
    }
    r := Value(Bind(portal, statement, formats, params, results));
  }

  method ParseDescribe(payload: Text) returns (r: Outcome<Message>)
    ensures r == OutcomeOf(ReadDescribe(payload))
  {
    if payload == [] {
      return Error(EmptyDescribe);
    }
    var buf := new ByteReader(payload[1..]);
    var name :- buf.ReadNullString();
    r := Value(Describe(payload[0], name));
  }

  method ParseExecute(payload: Text) returns (r: Outcome<Message>)
    ensures r == OutcomeOf(ReadExecute(payload))
  {
    hide NullString, Int32;
    var buf := new ByteReader(payload);
    var portal :- buf.ReadNullString();
    var count := buf.ReadInt32();
    if count == Error(EOF) {
      return Value(Execute(portal, 0));
    }
    var maxRows :- count;
    r := Value(Execute(portal, maxRows));
  }

  method ParseClose(payload: Text) returns (r: Outcome<Message>)
    ensures r == OutcomeOf(ReadClose(payload))
  {
    if payload == [] {
      return Error(EmptyClose);
    }
    var buf := new ByteReader(payload[1..]);
    var name :- buf.ReadNullString();
    r := Value(Close(payload[0], name));
  }

  /** The loop that fills the start-up map. */
  method ParseStartupParams(payload: Text) returns (params: map<Text, Text>)
    ensures params == StartupParams(payload, map[])
  {
    hide Find;
    params := map[];
    var buf := payload;
    while buf != []
      invariant StartupParams(payload, map[]) == StartupParams(buf, params)
      decreases |buf|
    {
      var i := Find(buf, NUL);
      if i == |buf| || i == 0 {
        break;
      }
      var after := buf[i + 1..];
      var j := Find(after, NUL);
      if j == |after| {
        break;
      }
      params := params[buf[..i] := after[..j]];
      buf := after[j + 1..];
    }
  }

  /** The first packet of a connection. */
  method ReadStartupOrSSL(s: Text) returns (r: Startup)
    ensures r == ReadStartup(s)
  {
    hide StartupParams;
    if |s| < 4 {
      return Refused(StartupError.Short);
    }
    var length := Uint32(s);
    if length < 8 || length > 10000 {
      return Refused(BadSize);
    }
    if |s| < 8 {
      return Refused(StartupError.Short);
    }
    var code := Uint32(s[4..8]);
    if code == SSL_REQUEST {
      return SSL(s[8..]);
    }
    if code != PROTOCOL_VERSION {
      return Refused(Unsupported);
    }
    if |s| < length {
      return Refused(StartupError.Short);
    }
    var params := ParseStartupParams(s[8..length]);
    r := Ready(params, s[length..]);
  }

  /** One turn of the connection loop: a header, then its payload. Every turn
      that yields a frame leaves fewer bytes. */
  method ReadFrame(s: Text) returns (r: Arrival)
    ensures r == NextFrame(s)
    ensures r.Whole? ==> |r.rest| < |s|
  {
    if |s| < 5 {
      return End;
    }
    var rawLen := Uint32(s[1..5]);
    if rawLen < 4 {
      return BadLength;
    }
    if rawLen - 4 >= SignedLimit(32) {
      return Oversized;
    }
    if |s| - 5 < rawLen - 4 {
      return End;
    }
    r := Whole(Frame(s[0], s[5..rawLen + 1]), s[rawLen + 1..]);
  }
}
