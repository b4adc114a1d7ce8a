/** The packed store of downloaded modules (micropython.c): records laid end to end, found by a linear walk. */
module ModuleStore {
  import opened Words

  type Bytes = seq<byte>

  const SIZE_BYTES := 4

  datatype Entry = Entry(name: Bytes, body: Bytes)

  predicate NulFree(s: Bytes) {
    forall i :: 0 <= i < |s| ==> s[i] != 0
  }

  predicate Storable(e: Entry) {
    NulFree(e.name) && |e.body| < U32
  }

  predicate IsStore(es: seq<Entry>) {
    forall i :: 0 <= i < |es| ==> Storable(es[i])
  }

  // ----- The format -----

  /** Size of the body, zero-terminated name, body. */
  function Record(e: Entry): (s: Bytes)
    ensures |s| == SIZE_BYTES + |e.name| + 1 + |e.body|
  {
    LE(|e.body|, SIZE_BYTES) + e.name + [0] + e.body
  }

  /** The first k records. */
  function Packed(es: seq<Entry>, k: nat): Bytes
    requires k <= |es|
  {
    if k == 0 then [] else Packed(es, k - 1) + Record(es[k - 1])
  }

  function Store(es: seq<Entry>): Bytes {
    Packed(es, |es|)
  }

  function Boundary(es: seq<Entry>, k: nat): nat
    requires k <= |es|
  {
    |Packed(es, k)|
  }

  lemma {:induction false} PackedIsPrefix(es: seq<Entry>, k: nat, n: nat)
    requires k <= n <= |es|
    ensures Packed(es, k) <= Packed(es, n)
  {
    if k < n {
      PackedIsPrefix(es, k, n - 1);
    }
  }

  // ----- C strings -----

  /** strlen, stopping at the end of memory. */
  function StrLen(mem: Bytes, at: nat): (n: nat)
    ensures at <= |mem| ==> at + n <= |mem|
    decreases |mem| - at
  {
    if at < |mem| && mem[at] != 0 then 1 + StrLen(mem, at + 1) else 0
  }

  /** What a C string function sees of the memory at a position. */
  function CString(mem: Bytes, at: nat): Bytes
    requires at <= |mem|
  {
    mem[at..at + StrLen(mem, at)]
  }

  lemma {:induction false} StrLenIs(mem: Bytes, at: nat, n: nat)
    requires at + n < |mem| && mem[at + n] == 0 && forall i :: at <= i < at + n ==> mem[i] != 0
    ensures StrLen(mem, at) == n
    decreases n
  {
    if n > 0 {
      StrLenIs(mem, at + 1, n - 1);
    }
  }

  lemma {:induction false} StrLenToEnd(mem: Bytes, at: nat)
    requires at <= |mem| && forall i :: at <= i < |mem| ==> mem[i] != 0
    ensures StrLen(mem, at) == |mem| - at
    decreases |mem| - at
  {
    if at < |mem| {
      StrLenToEnd(mem, at + 1);
    }
  }

  /** A name without zeros is seen whole. */
  lemma WholeName(name: Bytes)
    requires NulFree(name)
    ensures CString(name, 0) == name
  {
    StrLenToEnd(name, 0);
  }

  // ----- Reading a record -----

  predicate RecordAt(mem: Bytes, at: nat, e: Entry) {
    at + |Record(e)| <= |mem| && mem[at..at + |Record(e)|] == Record(e)
  }

  function SizeAt(mem: Bytes, info: nat): nat
    requires info + SIZE_BYTES <= |mem|
  {
    FromLE(mem[info..info + SIZE_BYTES])
  }

  /** mpy_data_get_buf. */
  function GetBuf(mem: Bytes, info: nat): nat
    requires info + SIZE_BYTES <= |mem|
  {
    info + SIZE_BYTES + StrLen(mem, info + SIZE_BYTES) + 1
  }

  /** The k-th record starts at the k-th boundary and ends at the next. */
  lemma RecordAtBoundary(es: seq<Entry>, k: nat)
    requires k < |es|
    ensures RecordAt(Store(es), Boundary(es, k), es[k])
    ensures Boundary(es, k + 1) == Boundary(es, k) + |Record(es[k])| <= |Store(es)|
  {
    PackedIsPrefix(es, k + 1, |es|);
    var mem, end := Store(es), Boundary(es, k + 1);
    assert mem[..end] == Packed(es, k) + Record(es[k]);
    assert mem[Boundary(es, k)..end] == mem[..end][Boundary(es, k)..];
  }

  lemma RecordParts(mem: Bytes, at: nat, e: Entry)
    requires RecordAt(mem, at, e)
    ensures mem[at..at + SIZE_BYTES] == LE(|e.body|, SIZE_BYTES)
    ensures mem[at + 4..at + 4 + |e.name|] == e.name
    ensures mem[at + 4 + |e.name|] == 0
    ensures mem[at + 5 + |e.name|..at + |Record(e)|] == e.body
  {
    var r, n := Record(e), |e.name|;
    assert r[..4] == LE(|e.body|, SIZE_BYTES) && r[4..4 + n] == e.name && r[4 + n] == 0 && r[5 + n..] == e.body;
    SubSlice(mem, at, r, 0, 4);
    SubSlice(mem, at, r, 4, 4 + n);
    SubSlice(mem, at, r, 5 + n, |r|);
    assert mem[at..at + |r|][4 + n] == mem[at + 4 + n];
  }

  lemma SubSlice(mem: Bytes, at: nat, r: Bytes, i: nat, j: nat)
    requires at + |r| <= |mem| && mem[at..at + |r|] == r && i <= j <= |r|
    ensures mem[at + i..at + j] == r[i..j]
  {
    assert forall x :: i <= x < j ==> mem[at + x] == r[x];
  }

  /** The size, the name and the body of a record are read back. */
  lemma ReadsRecord(mem: Bytes, at: nat, e: Entry)
    requires RecordAt(mem, at, e) && Storable(e)
    ensures SizeAt(mem, at) == |e.body| && CString(mem, at + SIZE_BYTES) == e.name
    ensures GetBuf(mem, at) + |e.body| == at + |Record(e)|
    ensures mem[GetBuf(mem, at)..GetBuf(mem, at) + SizeAt(mem, at)] == e.body
  {
    RecordParts(mem, at, e);
    PowerValues();
    LERoundTrip(|e.body|, SIZE_BYTES);
    var s := at + SIZE_BYTES;
    assert forall i :: s <= i < s + |e.name| ==> mem[i] == e.name[i - s];
    StrLenIs(mem, s, |e.name|);
  }

  // ----- Finding a module -----

  /** The first entry with the given name from the k-th on. */
  function FirstFrom(es: seq<Entry>, name: Bytes, k: nat): (first: Option<nat>)
    requires k <= |es|
    ensures first.Some? ==> k <= first.value < |es| && es[first.value].name == name
    ensures first.Some? ==> forall i :: k <= i < first.value ==> es[i].name != name
    ensures first.None? ==> forall i :: k <= i < |es| ==> es[i].name != name
    decreases |es| - k
  {
    if k == |es| then None
    else if es[k].name == name then Some(k)
    else FirstFrom(es, name, k + 1)
  }

  /** What mpy_data_find promises: the position of the first entry whose name is the C string of the one wanted. */
  function Found(es: seq<Entry>, name: Bytes): Option<nat> {
    match FirstFrom(es, CString(name, 0), 0)
    case Some(k) => Some(Boundary(es, k))
    case None => None
  }

  /** mpy_data_find. The positions visited are the first record boundaries, each once. */
  method Find(mem: Bytes, name: Bytes, ghost es: seq<Entry>) returns (at: Option<nat>, ghost visited: seq<nat>)
    requires IsStore(es) && mem == Store(es)
    ensures at == Found(es, name)
    ensures |visited| == (match FirstFrom(es, CString(name, 0), 0) case Some(k) => k + 1 case None => |es|)
    ensures forall i :: 0 <= i < |visited| ==> visited[i] == Boundary(es, i)
  {
    var info := 0;
    visited := [];
    while info + SIZE_BYTES < |mem|
      invariant |visited| <= |es| && info == Boundary(es, |visited|)
      invariant forall i :: 0 <= i < |visited| ==> visited[i] == Boundary(es, i)
      invariant FirstFrom(es, CString(name, 0), 0) == FirstFrom(es, CString(name, 0), |visited|)
      decreases |es| - |visited|
    {
      ghost var k := |visited|;
      assert k < |es|;
      RecordAtBoundary(es, k);
      ReadsRecord(mem, info, es[k]);
      visited := visited + [info];
      if CString(mem, info + SIZE_BYTES) == CString(name, 0) {
        at := Some(info);
        return;
      }
      info := GetBuf(mem, info) + SizeAt(mem, info);
    }
    if |visited| < |es| {
      RecordAtBoundary(es, |visited|);
      assert false;
    }
    at := None;
  }

  /** Different entries start at different positions. */
  lemma {:induction false} BoundariesDiffer(es: seq<Entry>, i: nat, j: nat)
    requires i < j <= |es|
    ensures Boundary(es, i) < Boundary(es, j)
  {
    if i < j - 1 {
      BoundariesDiffer(es, i, j - 1);
    }
  }

  /** Two names find the same module exactly when they agree up to their first zero. */
  lemma SameModuleIff(es: seq<Entry>, a: Bytes, b: Bytes)
    requires Found(es, a).Some? && Found(es, b).Some?
    ensures Found(es, a) == Found(es, b) <==> CString(a, 0) == CString(b, 0)
  {
    var i, j := FirstFrom(es, CString(a, 0), 0).value, FirstFrom(es, CString(b, 0), 0).value;
    if i < j {
      BoundariesDiffer(es, i, j);
    } else if j < i {
      BoundariesDiffer(es, j, i);
    }
  }

  /** So a name with a zero inside finds the module stored under its first part. */
  lemma NameWithZero(name: Bytes, rest: Bytes, body: Bytes)
    requires NulFree(name)
    ensures Found([Entry(name, body)], name + [0] + rest) == Some(0) == Found([Entry(name, body)], name)
  {
    var long := name + [0] + rest;
    StrLenIs(long, 0, |name|);
    WholeName(name);
    assert CString(long, 0) == name;
  }
}
