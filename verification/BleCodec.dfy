/** The Pybricks broadcast encoding (pb_type_ble_radio): tagged values in at most 26 bytes. */
module BleCodec {
  import opened Words

  const MAX_SIZE := 26

  const SINGLE_OBJECT := 0
  const TRUE := 1
  const FALSE := 2
  const INT := 3
  const FLOAT := 4
  const STR := 5
  const BYTES := 6

  /** A Python object: floats are their four bytes, strings their UTF-8 bytes, Other is any unsupported type. */
  datatype Value = Bool(b: bool) | Int(n: int) | Float(bits: seq<byte>) | Str(s: seq<byte>) | Bytes(s: seq<byte>)
      | Other

  /** The argument of broadcast(): a single object or a tuple or list of them. */
  datatype Data = Single(value: Value) | Tuple(values: seq<Value>)

  datatype Error = ValueError | TypeError | OverflowError | RuntimeError

  datatype Result<+T> = Ok(value: T) | Err(error: Error)

  // ----- Encoding -----

  predicate FitsInt32(n: int) {
    -0x8000_0000 <= n < 0x8000_0000
  }

  /** A Python float has four bytes once converted to single precision. */
  predicate IsValue(v: Value) {
    v.Float? ==> |v.bits| == 4
  }

  predicate Supported(v: Value) {
    IsValue(v) && !v.Other? && (v.Int? ==> FitsInt32(v.n))
  }

  function TypeCode(v: Value): (code: nat)
    ensures code < 8
    ensures !v.Other? ==> code != SINGLE_OBJECT
  {
    match v
    case Bool(b) => if b then TRUE else FALSE
    case Int(_) => INT
    case Float(_) => FLOAT
    case Str(_) => STR
    case Bytes(_) => BYTES
    case Other => SINGLE_OBJECT
  }

  /** The fewest of 1, 2 or 4 bytes that hold the integer. */
  function IntWidth(n: int): nat {
    if -0x80 <= n < 0x80 then 1 else if -0x8000 <= n < 0x8000 then 2 else 4
  }

  function Payload(v: Value): (p: seq<byte>)
    requires Supported(v)
  {
    match v
    case Bool(_) => []
    case Int(n) => PowerValues(); LE(Pattern(n, IntWidth(n)), IntWidth(n))
    case Float(bits) => bits
    case Str(s) => s
    case Bytes(s) => s
  }

  /** Type in the upper three bits, size in the lower five. */
  function Header(code: nat, size: nat): byte
    requires code < 8 && size < 32
  {
    code * 32 + size
  }

  /** The bytes a value takes, and the error if it cannot be appended at index. */
  function EncodeError(v: Value, index: nat): Option<Error> {
    if v.Other? || !IsValue(v) then Some(TypeError)
    else if !Supported(v) then Some(OverflowError)
    else if index + |Payload(v)| + 1 > MAX_SIZE then Some(ValueError)
    else None
  }

  predicate Encodable(v: Value) {
    Supported(v) && |Payload(v)| < MAX_SIZE
  }

  function Item(v: Value): (s: seq<byte>)
    requires Encodable(v)
    ensures |s| == |Payload(v)| + 1
  {
    [Header(TypeCode(v), |Payload(v)|)] + Payload(v)
  }

  /** The first k values can all be encoded. */
  predicate EncodableTo(vs: seq<Value>, k: nat)
    requires k <= |vs|
  {
    forall i :: 0 <= i < k ==> Encodable(vs[i])
  }

  /** The first k values, one item after another. */
  function StreamTo(vs: seq<Value>, k: nat): seq<byte>
    requires k <= |vs| && EncodableTo(vs, k)
  {
    if k == 0 then [] else StreamTo(vs, k - 1) + Item(vs[k - 1])
  }

  predicate AllEncodable(vs: seq<Value>) {
    EncodableTo(vs, |vs|)
  }

  function Stream(vs: seq<Value>): seq<byte>
    requires AllEncodable(vs)
  {
    StreamTo(vs, |vs|)
  }

  /** The first error when the first k values are appended one after another from position start. */
  function ErrorTo(vs: seq<Value>, k: nat, start: nat): (e: Option<Error>)
    requires k <= |vs|
    ensures e.None? ==> EncodableTo(vs, k)
  {
    if k == 0 then None
    else
      var before := ErrorTo(vs, k - 1, start);
      if before.Some? then before else EncodeError(vs[k - 1], start + |StreamTo(vs, k - 1)|)
  }

  function StreamError(vs: seq<Value>, start: nat): Option<Error> {
    ErrorTo(vs, |vs|, start)
  }

  lemma EncodeErrorIff(v: Value, index: nat)
    ensures EncodeError(v, index).None? <==> Encodable(v) && index + |Item(v)| <= MAX_SIZE
  {
  }

  /** Encoding succeeds exactly when every value is supported and all of them fit. */
  lemma {:induction false} ErrorToIff(vs: seq<Value>, k: nat, start: nat)
    requires k <= |vs| && start <= MAX_SIZE
    ensures ErrorTo(vs, k, start).None? <==> EncodableTo(vs, k) && start + |StreamTo(vs, k)| <= MAX_SIZE
  {
    if k > 0 {
      ErrorToIff(vs, k - 1, start);
      ErrorToNext(vs, k - 1, start);
      hide Payload;
      if ErrorTo(vs, k - 1, start).None? {
        EncodeErrorIff(vs[k - 1], start + |StreamTo(vs, k - 1)|);
        EncodableNext(vs, k - 1);
      } else if EncodableTo(vs, k) {
        EncodableNext(vs, k - 1);
      }
    }
  }

  /** What one more value adds to the error. */
  lemma ErrorToNext(vs: seq<Value>, k: nat, start: nat)
    requires k < |vs|
    ensures ErrorTo(vs, k + 1, start) == if ErrorTo(vs, k, start).Some? then ErrorTo(vs, k, start)
                                         else EncodeError(vs[k], start + |StreamTo(vs, k)|)
  {
  }

  /** What one more value adds to the bytes. */
  lemma EncodableNext(vs: seq<Value>, k: nat)
    requires k < |vs|
    ensures EncodableTo(vs, k + 1) <==> EncodableTo(vs, k) && Encodable(vs[k])
    ensures EncodableTo(vs, k + 1) ==> StreamTo(vs, k + 1) == StreamTo(vs, k) + Item(vs[k])
  {
  }

  /** What broadcast() puts in the 26 bytes: a single object is marked, a tuple is not. */
  function Body(d: Data): seq<byte>
    requires d.Single? ==> Encodable(d.value)
    requires d.Tuple? ==> AllEncodable(d.values)
  {
    match d
    case Single(v) => [Header(SINGLE_OBJECT, 0)] + Item(v)
    case Tuple(vs) => Stream(vs)
  }

  /** Every value is supported and they fit together. */
  predicate CanBroadcast(d: Data) {
    (d.Single? ==> Encodable(d.value)) && (d.Tuple? ==> AllEncodable(d.values)) && |Body(d)| <= MAX_SIZE
  }

  function BodyError(d: Data): Option<Error> {
    match d
    case Single(v) => EncodeError(v, 1)
    case Tuple(vs) => StreamError(vs, 0)
  }

  /** The integer fits in so many bytes, in two's complement. */
  predicate FitsBytes(n: int, width: nat) {
    -(Pow256(width) as int) <= 2 * n < Pow256(width)
  }

  /** Integers take the fewest of 1, 2 and 4 bytes. */
  lemma FewestBytes(n: int, width: nat)
    requires FitsInt32(n) && width in {1, 2, 4}
    ensures FitsBytes(n, IntWidth(n)) && IntWidth(n) in {1, 2, 4}
    ensures FitsBytes(n, width) ==> IntWidth(n) <= width
    ensures |Item(Int(n))| == 1 + IntWidth(n)
  {
    PowerValues();
  }

  /** The wire format, byte by byte. */
  lemma WireFormat(bits: seq<byte>, s: seq<byte>)
    requires |bits| == 4 && |s| < 26
    ensures Item(Bool(true)) == [0x20] && Item(Bool(false)) == [0x40]
    ensures Item(Float(bits)) == [0x84] + bits
    ensures Item(Str(s)) == [0xA0 + |s|] + s && Item(Bytes(s)) == [0xC0 + |s|] + s
    ensures CanBroadcast(Single(Bool(true))) && Body(Single(Bool(true))) == [0x00, 0x20]
  {
  }

  lemma WireFormatOfInt(n: int)
    requires FitsInt32(n)
    ensures -0x80 <= n < 0x80 ==> Item(Int(n)) == [0x61, n % 0x100]
    ensures 0x80 <= n < 0x8000 ==> Item(Int(n)) == [0x62, n % 0x100, n / 0x100]
    ensures -0x8000 <= n < -0x80 ==> Item(Int(n)) == [0x62, n % 0x100, (n + 0x1_0000) / 0x100]
    ensures !(-0x8000 <= n < 0x8000) ==> |Item(Int(n))| == 5 && Item(Int(n))[..2] == [0x64, n % 0x100]
  {
    PowerValues();
    var u := Pattern(n, IntWidth(n));
    LittleEndianBytes(u);
    assert u % 0x100 == n % 0x100;
  }

  /** Which error an object causes, and that it causes none exactly if it is supported and fits. */
  lemma ErrorMeans(v: Value, index: nat)
    requires IsValue(v)
    ensures EncodeError(v, index) == Some(TypeError) <==> v.Other?
    ensures EncodeError(v, index) == Some(OverflowError) <==> v.Int? && !(-0x8000_0000 <= v.n < 0x8000_0000)
    ensures EncodeError(v, index) == Some(ValueError) <==> Supported(v) && index + |Payload(v)| + 1 > 26
    ensures EncodeError(v, index) != Some(RuntimeError)
  {
  }

  // ----- Decoding -----

  /** Past the end of the 26 bytes the firmware's read has no defined result. */
  datatype Decoded = Got(value: Value, next: nat) | BadData | OutOfBounds

  function DecodeAt(data: seq<byte>, index: nat): (r: Decoded)
    ensures r.Got? ==> index < r.next <= |data|
  {
    if index >= |data| then OutOfBounds
    else
      var size, code, at := data[index] % 32, data[index] / 32, index + 1;
      if code == TRUE then Got(Bool(true), at)
      else if code == FALSE then Got(Bool(false), at)
      else if code == INT && (size == 1 || size == 2 || size == 4) then
        if at + size > |data| then OutOfBounds
        else SignedValue(data[at..at + size]); Got(Int(Signed(FromLE(data[at..at + size]), size)), at + size)
      else if code == FLOAT then
        if at + 4 > |data| then OutOfBounds else Got(Float(data[at..at + 4]), at + 4)
      else if code == STR then
        if at + size > |data| then OutOfBounds else Got(Str(data[at..at + size]), at + size)
      else if code == BYTES then
        if at + size > |data| then OutOfBounds else Got(Bytes(data[at..at + size]), at + size)
      else BadData
  }

  /** Data is bad exactly if its type is none of the six, or it is an integer that has not 1, 2 or 4 bytes. */
  lemma BadDataIff(data: seq<byte>, index: nat)
    requires index < |data|
    ensures DecodeAt(data, index).BadData? <==>
            data[index] / 32 in {0, 7} || (data[index] / 32 == 3 && data[index] % 32 !in {1, 2, 4})
  {
  }

  lemma {:induction false} SignedValue(s: seq<byte>)
    ensures FromLE(s) < Pow256(|s|)
  {
    if s != [] {
      SignedValue(s[1..]);
    }
  }

  datatype Observed = Seen(data: Data) | Failed | Undefined

  /** The loop of observe(): at most 26 values, up to the received size. */
  function DecodeTuple(data: seq<byte>, size: nat, index: nat, soFar: seq<Value>): Observed
    decreases MAX_SIZE - |soFar|
  {
    if |soFar| >= MAX_SIZE || index >= size then Seen(Tuple(soFar))
    else
      match DecodeAt(data, index)
      case Got(v, next) => DecodeTuple(data, size, next, soFar + [v])
      case BadData => Failed
      case OutOfBounds => Undefined
  }

  function DecodeBody(data: seq<byte>, size: nat): Observed
    requires |data| == MAX_SIZE
  {
    if size != 0 && data[0] / 32 == SINGLE_OBJECT then
      match DecodeAt(data, 1)
      case Got(v, _) => Seen(Single(v))
      case BadData => Failed
      case OutOfBounds => Undefined
    else DecodeTuple(data, size, 0, [])
  }

  // ----- Round trip -----

  lemma DecodeItem(data: seq<byte>, index: nat, v: Value)
    requires Encodable(v) && index + |Item(v)| <= |data|
    requires data[index..index + |Item(v)|] == Item(v)
    ensures DecodeAt(data, index) == Got(v, index + |Item(v)|)
  {
    var p := Payload(v);
    assert data[index] == Item(v)[0];
    assert data[index + 1..index + 1 + |p|] == Item(v)[1..] == p;
    if v.Int? {
      PowerValues();
      LERoundTrip(Pattern(v.n, IntWidth(v.n)), IntWidth(v.n));
    }
  }

  lemma {:induction false} StreamToIsPrefix(vs: seq<Value>, k: nat, n: nat)
    requires k <= n <= |vs| && EncodableTo(vs, n)
    ensures StreamTo(vs, k) <= StreamTo(vs, n)
    ensures |StreamTo(vs, n)| >= n
    decreases n
  {
    if k < n {
      StreamToIsPrefix(vs, k, n - 1);
    } else if n > 0 {
      StreamToIsPrefix(vs, n - 1, n - 1);
    }
  }

  /** At the place of the k-th value the decoder finds it and moves on to the place of the next. */
  lemma DecodeKth(data: seq<byte>, vs: seq<Value>, k: nat)
    requires AllEncodable(vs) && k < |vs| && Stream(vs) <= data
    ensures |StreamTo(vs, k)| < |Stream(vs)|
    ensures DecodeAt(data, |StreamTo(vs, k)|) == Got(vs[k], |StreamTo(vs, k + 1)|)
  {
    StreamToIsPrefix(vs, k + 1, |vs|);
    PrefixSlice(StreamTo(vs, k), Item(vs[k]), data);
    DecodeItem(data, |StreamTo(vs, k)|, vs[k]);
  }

  lemma PrefixSlice(a: seq<byte>, b: seq<byte>, data: seq<byte>)
    requires a + b <= data
    ensures data[|a|..|a| + |b|] == b
  {
    assert data[..|a| + |b|] == a + b;
  }

  /** The decoder reads value i at places[i] and stops at places[i + 1]. */
  predicate ReadsAt(data: seq<byte>, vs: seq<Value>, places: seq<nat>) {
    && |places| == |vs| + 1
    && forall i :: 0 <= i < |vs| ==> DecodeAt(data, places[i]) == Got(vs[i], places[i + 1])
  }

  lemma {:induction false} DecodePlaces(data: seq<byte>, vs: seq<Value>, places: seq<nat>, k: nat)
    requires ReadsAt(data, vs, places) && k <= |vs| <= MAX_SIZE
    requires forall i :: 0 <= i < |vs| ==> places[i] < places[|vs|]
    ensures DecodeTuple(data, places[|vs|], places[k], vs[..k]) == Seen(Tuple(vs))
    decreases |vs| - k
  {
    if k == |vs| {
      assert vs[..k] == vs;
    } else {
      assert vs[..k] + [vs[k]] == vs[..k + 1];
      DecodePlaces(data, vs, places, k + 1);
    }
  }

  /** Where the values start, and where the last one ends. */
  function Places(vs: seq<Value>): (places: seq<nat>)
    requires AllEncodable(vs)
    ensures |places| == |vs| + 1
    ensures forall i :: 0 <= i <= |vs| ==> places[i] == |StreamTo(vs, i)|
  {
    seq(|vs| + 1, i requires 0 <= i <= |vs| => |StreamTo(vs, i)|)
  }

  lemma ReadsAtPlaces(data: seq<byte>, vs: seq<Value>)
    requires AllEncodable(vs) && Stream(vs) <= data
    ensures ReadsAt(data, vs, Places(vs))
    ensures forall i :: 0 <= i < |vs| ==> Places(vs)[i] < Places(vs)[|vs|]
  {
    forall k | 0 <= k < |vs|
      ensures DecodeAt(data, Places(vs)[k]) == Got(vs[k], Places(vs)[k + 1]) && Places(vs)[k] < |Stream(vs)|
    {
      DecodeKth(data, vs, k);
    }
  }

  /** Decoding the encoding of a list returns the list and ends exactly at its size, whatever bytes follow. */
  lemma DecodeStream(data: seq<byte>, vs: seq<Value>)
    requires AllEncodable(vs) && |Stream(vs)| <= MAX_SIZE == |data|
    requires Stream(vs) <= data
    ensures DecodeTuple(data, |Stream(vs)|, 0, []) == Seen(Tuple(vs))
  {
    ReadsAtPlaces(data, vs);
    StreamToIsPrefix(vs, 0, |vs|);
    assert vs[..0] == [];
    DecodePlaces(data, vs, Places(vs), 0);
  }

  /** broadcast() raises no error exactly when the data can be broadcast. */
  lemma BodyErrorIff(d: Data)
    ensures BodyError(d).None? <==> CanBroadcast(d)
  {
    if d.Tuple? {
      ErrorToIff(d.values, |d.values|, 0);
    }
  }

  lemma DecodeOfSingle(v: Value, data: seq<byte>)
    requires Encodable(v) && |data| == MAX_SIZE && Body(Single(v)) <= data
    ensures DecodeBody(data, |Body(Single(v))|) == Seen(Single(v))
  {
    var body := Body(Single(v));
    assert data[0] == body[0];
    assert data[1..1 + |Item(v)|] == body[1..] == Item(v);
    DecodeItem(data, 1, v);
  }

  lemma FirstIsNotMarker(vs: seq<Value>, data: seq<byte>)
    requires AllEncodable(vs) && vs != [] && Stream(vs) <= data
    ensures data != [] && data[0] / 32 != SINGLE_OBJECT
  {
    StreamToIsPrefix(vs, 1, |vs|);
    assert StreamTo(vs, 1) == Item(vs[0]);
    assert data[0] == Item(vs[0])[0];
  }

  lemma DecodeOfTuple(vs: seq<Value>, data: seq<byte>)
    requires AllEncodable(vs) && |Stream(vs)| <= MAX_SIZE == |data| && Stream(vs) <= data
    ensures DecodeBody(data, |Stream(vs)|) == Seen(Tuple(vs))
  {
    DecodeStream(data, vs);
    if vs != [] {
      FirstIsNotMarker(vs, data);
    }
  }

  /**
    Whatever can be broadcast is decoded as the same data, single object or tuple, from the bytes
    sent followed by any others; a single object is never taken for a tuple of one.
   */
  lemma DecodeOfBody(d: Data, data: seq<byte>)
    requires CanBroadcast(d) && |data| == MAX_SIZE && Body(d) <= data
    ensures DecodeBody(data, |Body(d)|) == Seen(d)
  {
    match d
    case Single(v) => DecodeOfSingle(v, data);
    case Tuple(vs) => DecodeOfTuple(vs, data);
  }
}
