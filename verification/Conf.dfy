/**
 * The SYSCONF item directory (source/conf.c): a count, a table of offsets, and named items of
 * several kinds. A 16-bit field of the directory is stored high byte first.
 */
module Conf {
  import opened Bytes

  const ENOENT := -0x6002
  const ETOOBIG := -0x6003
  const ENOTIMPL := -0x6005

  const COUNT_AT := 4
  const OFFSETS_AT := 6

  const BIGARRAY: byte := 1
  const SMALLARRAY: byte := 2
  const BYTE: byte := 3
  const SHORT: byte := 4
  const LONG: byte := 5
  const BOOL: byte := 7

  // ---------------------------------------------------------------- the layout

  function Count(c: seq<byte>): nat
    requires |c| >= OFFSETS_AT
  {
    Big16(c[COUNT_AT], c[COUNT_AT + 1])
  }

  predicate HasTable(c: seq<byte>) {
    |c| >= OFFSETS_AT && OFFSETS_AT + 2 * Count(c) <= |c|
  }

  function Offset(c: seq<byte>, i: nat): nat
    requires HasTable(c) && i < Count(c)
  {
    Big16(c[OFFSETS_AT + 2 * i], c[OFFSETS_AT + 2 * i + 1])
  }

  /** Item headers hold the kind and the length of the name. */
  function Kind(b: byte): byte { b >> 5 }

  function NameLength(b: byte): nat { (b & 0x0F) as nat + 1 }

  function LengthBytes(kind: byte): nat {
    if kind == BIGARRAY then 2 else if kind == SMALLARRAY then 1 else 0
  }

  function DataAt(c: seq<byte>, o: nat): nat
    requires o < |c|
  {
    o + 1 + NameLength(c[o]) + LengthBytes(Kind(c[o]))
  }

  /** The number of data bytes, for the kinds that are supported. */
  function DataLength(c: seq<byte>, o: nat): Option<nat>
    requires o < |c| && DataAt(c, o) <= |c|
  {
    var kind, at := Kind(c[o]), o + 1 + NameLength(c[o]);
    if kind == BIGARRAY then Some(Big16(c[at], c[at + 1]) + 1)
    else if kind == SMALLARRAY then Some(c[at] as nat + 1)
    else if kind == BYTE || kind == BOOL then Some(1)
    else if kind == SHORT then Some(2)
    else if kind == LONG then Some(4)
    else None
  }

  function ItemEnd(c: seq<byte>, o: nat): nat
    requires o < |c| && DataAt(c, o) <= |c|
  {
    DataAt(c, o) + match DataLength(c, o) case Some(n) => n case None => 0
  }

  predicate Fits(c: seq<byte>, o: nat) {
    o < |c| && DataAt(c, o) <= |c| && ItemEnd(c, o) <= |c|
  }

  function Name(c: seq<byte>, o: nat): seq<byte>
    requires Fits(c, o)
  {
    c[o + 1..o + 1 + NameLength(c[o])]
  }

  predicate WellFormed(c: seq<byte>) {
    HasTable(c) && forall i :: 0 <= i < Count(c) ==> Fits(c, Offset(c, i))
  }

  predicate Apart(c: seq<byte>, o: nat, p: nat)
    requires Fits(c, o) && Fits(c, p)
  {
    ItemEnd(c, o) <= p || ItemEnd(c, p) <= o
  }

  /** No item overlaps the table or another item. */
  predicate NonOverlapping(c: seq<byte>)
    requires WellFormed(c)
  {
    && (forall i :: 0 <= i < Count(c) ==> OFFSETS_AT + 2 * Count(c) <= Offset(c, i))
    && (forall i, j :: 0 <= i < j < Count(c) ==> Apart(c, Offset(c, i), Offset(c, j)))
  }

  // ---------------------------------------------------------------- the operations

  /** The first item of that name, from entry i on. */
  function FindFrom(c: seq<byte>, name: seq<byte>, i: nat): (r: Option<nat>)
    requires WellFormed(c) && i <= Count(c)
    ensures r.Some? ==> i <= r.value < Count(c) && Name(c, Offset(c, r.value)) == name
    ensures r.None? ==> forall j :: i <= j < Count(c) ==> Name(c, Offset(c, j)) != name
    decreases Count(c) - i
  {
    if i == Count(c) then None
    else if Name(c, Offset(c, i)) == name then Some(i)
    else FindFrom(c, name, i + 1)
  }

  function Find(c: seq<byte>, name: seq<byte>): (o: Option<nat>)
    requires WellFormed(c)
    ensures o.Some? ==> Fits(c, o.value) && Name(c, o.value) == name
  {
    match FindFrom(c, name, 0) case Some(i) => Some(Offset(c, i)) case None => None
  }

  function Length(c: seq<byte>, name: seq<byte>): int
    requires WellFormed(c)
  {
    match Find(c, name)
    case None => ENOENT
    case Some(o) => match DataLength(c, o) case Some(n) => n case None => ENOTIMPL
  }

  predicate IsArray(kind: byte) { kind == BIGARRAY || kind == SMALLARRAY }

  function Data(c: seq<byte>, o: nat): seq<byte>
    requires Fits(c, o)
  {
    c[DataAt(c, o)..ItemEnd(c, o)]
  }

  /** conf_get: the return value and the new contents of the caller's buffer. */
  function Get(c: seq<byte>, name: seq<byte>, buffer: seq<byte>): (int, seq<byte>)
    requires WellFormed(c)
  {
    var len := Length(c, name);
    if len < 0 then (len, buffer)
    else if len > |buffer| then (ETOOBIG, buffer)
    else
      var o := Find(c, name).value;
      (len, Data(c, o) + if IsArray(Kind(c[o])) then buffer[len..] else Fill(|buffer| - len, 0))
  }

  /** conf_set: the return value and the new file. The item's own length counts, not the caller's. */
  function Set(c: seq<byte>, name: seq<byte>, buffer: seq<byte>, length: nat): (int, seq<byte>)
    requires WellFormed(c) && (length <= Length(c, name) ==> Length(c, name) <= |buffer|)
  {
    var len := Length(c, name);
    if len < 0 then (len, c)
    else if len < length then (ETOOBIG, c)
    else
      var o := Find(c, name).value;
      (len, Splice(c, DataAt(c, o), buffer[..len]))
  }

  // ---------------------------------------------------------------- the directory as a map

  /** c' differs from c in the data of item i only. */
  predicate OnlyDataChanged(c: seq<byte>, c': seq<byte>, i: nat)
    requires WellFormed(c) && i < Count(c)
  {
    && |c'| == |c|
    && forall k :: 0 <= k < |c| && !(DataAt(c, Offset(c, i)) <= k < ItemEnd(c, Offset(c, i))) ==> c'[k] == c[k]
  }

  lemma TableUnchanged(c: seq<byte>, c': seq<byte>, i: nat)
    requires WellFormed(c) && NonOverlapping(c) && i < Count(c) && OnlyDataChanged(c, c', i)
    ensures HasTable(c') && Count(c') == Count(c)
    ensures forall j :: 0 <= j < Count(c) ==> Offset(c', j) == Offset(c, j)
  {
    assert forall k :: 0 <= k < OFFSETS_AT + 2 * Count(c) ==> c'[k] == c[k];
  }

  /** The header, name and length of every item, and the data of every other item, are kept. */
  lemma ItemUnchanged(c: seq<byte>, c': seq<byte>, i: nat, j: nat)
    requires WellFormed(c) && NonOverlapping(c) && i < Count(c) && j < Count(c) && OnlyDataChanged(c, c', i)
    ensures var o := Offset(c, j);
            && Fits(c', o) && c'[o] == c[o] && DataLength(c', o) == DataLength(c, o)
            && Name(c', o) == Name(c, o) && (j != i ==> Data(c', o) == Data(c, o))
  {
    hide Offset, DataLength, NameLength;
    var o, p := Offset(c, j), Offset(c, i);
    BothFit(c, i, j);
    HeaderAndData(c, c', o, p, j == i);
  }

  lemma BothFit(c: seq<byte>, i: nat, j: nat)
    requires WellFormed(c) && NonOverlapping(c) && i < Count(c) && j < Count(c)
    ensures Fits(c, Offset(c, i)) && Fits(c, Offset(c, j))
    ensures i != j ==> Apart(c, Offset(c, i), Offset(c, j))
  {
    hide Fits, Offset;
  }

  lemma HeaderAndData(c: seq<byte>, c': seq<byte>, o: nat, p: nat, same: bool)
    requires Fits(c, o) && Fits(c, p) && |c'| == |c| && (if same then o == p else Apart(c, o, p))
    requires forall k :: 0 <= k < |c| && !(DataAt(c, p) <= k < ItemEnd(c, p)) ==> c'[k] == c[k]
    ensures Fits(c', o) && c'[o] == c[o] && DataLength(c', o) == DataLength(c, o)
    ensures Name(c', o) == Name(c, o) && (!same ==> Data(c', o) == Data(c, o))
  {
    hide Big16, Kind, NameLength, DataLength;
    assert forall k :: o <= k < DataAt(c, o) ==> c'[k] == c[k];
    SameHeader(c, c', o);
    SameExtent(c, c', o);
    if !same {
      assert forall k :: DataAt(c, o) <= k < ItemEnd(c, o) ==> c'[k] == c[k];
    }
  }

  /** Header, name and length bytes decide what is read of an item. */
  lemma SameHeader(c: seq<byte>, c': seq<byte>, o: nat)
    requires Fits(c, o) && |c'| == |c|
    requires forall k :: o <= k < DataAt(c, o) ==> c'[k] == c[k]
    ensures Fits(c', o) && c'[o] == c[o] && DataLength(c', o) == DataLength(c, o) && Name(c', o) == Name(c, o)
  {
    hide Big16, Kind, NameLength;
    assert c'[o] == c[o];
    assert DataLength(c', o) == DataLength(c, o);
  }

  lemma {:induction false} FindUnchanged(c: seq<byte>, c': seq<byte>, name: seq<byte>, i: nat)
    requires WellFormed(c) && WellFormed(c') && Count(c') == Count(c) && i <= Count(c)
    requires forall j :: 0 <= j < Count(c) ==>
               Offset(c', j) == Offset(c, j) && Name(c', Offset(c, j)) == Name(c, Offset(c, j))
    ensures FindFrom(c', name, i) == FindFrom(c, name, i)
    decreases Count(c) - i
  {
    hide Fits, Offset, Name;
    if i < Count(c) {
      FindUnchanged(c, c', name, i + 1);
    }
  }

  /** Writing an item's data keeps the directory: every name finds the item it found before. */
  lemma DirectoryUnchanged(c: seq<byte>, c': seq<byte>, i: nat)
    requires WellFormed(c) && NonOverlapping(c) && i < Count(c) && OnlyDataChanged(c, c', i)
    ensures WellFormed(c') && NonOverlapping(c')
    ensures forall name :: Find(c', name) == Find(c, name)
  {
    hide Fits, Offset;
    TableUnchanged(c, c', i);
    forall j | 0 <= j < Count(c) ensures Fits(c', Offset(c', j)) && Name(c', Offset(c, j)) == Name(c, Offset(c, j)) {
      ItemUnchanged(c, c', i, j);
    }
    forall name ensures Find(c', name) == Find(c, name) {
      FindUnchanged(c, c', name, 0);
    }
    forall j, k | 0 <= j < k < Count(c) ensures Apart(c', Offset(c', j), Offset(c', k)) {
      ItemUnchanged(c, c', i, j);
      ItemUnchanged(c, c', i, k);
      SameExtent(c, c', Offset(c, j));
      SameExtent(c, c', Offset(c, k));
      assert Apart(c, Offset(c, j), Offset(c, k));
    }
  }

  lemma SameExtent(c: seq<byte>, c': seq<byte>, o: nat)
    requires Fits(c, o) && Fits(c', o) && c'[o] == c[o] && DataLength(c', o) == DataLength(c, o)
    ensures DataAt(c', o) == DataAt(c, o) && ItemEnd(c', o) == ItemEnd(c, o)
  {
  }

  /** What a successful conf_set did to the file. */
  lemma SetChangesData(c: seq<byte>, name: seq<byte>, buffer: seq<byte>, length: nat) returns (i: nat)
    requires WellFormed(c) && 0 <= Length(c, name) && length <= Length(c, name) <= |buffer|
    ensures i < Count(c) && Find(c, name) == Some(Offset(c, i)) && Name(c, Offset(c, i)) == name
    ensures OnlyDataChanged(c, Set(c, name, buffer, length).1, i)
    ensures Set(c, name, buffer, length).1[DataAt(c, Offset(c, i))..ItemEnd(c, Offset(c, i))] == buffer[..Length(c, name)]
  {
    i := FindFrom(c, name, 0).value;
  }

  /** On a file without overlaps a written value is read back. */
  lemma SetThenGet(c: seq<byte>, name: seq<byte>, value: seq<byte>, into: seq<byte>)
    requires WellFormed(c) && NonOverlapping(c) && Length(c, name) == |value| == |into|
    ensures var (ret, c') := Set(c, name, value, |value|);
            ret == |value| && WellFormed(c') && NonOverlapping(c') && Get(c', name, into) == (|value|, value)
  {
    hide Offset, FindFrom;
    var i := SetChangesData(c, name, value, |value|);
    var c' := Set(c, name, value, |value|).1;
    DirectoryUnchanged(c, c', i);
    ItemUnchanged(c, c', i, i);
    SameExtent(c, c', Offset(c, i));
    assert value[..|value|] == value;
    assert Find(c', name) == Find(c, name);
    assert Data(c', Offset(c, i)) == value && value + [] == value;
    assert into[|value|..] == [] && Fill<byte>(|into| - |value|, 0) == [];
  }

  /** Whatever conf_set does, successful or not, every other name reads as before. */
  lemma SetKeepsOthers(c: seq<byte>, name: seq<byte>, buffer: seq<byte>, length: nat, other: seq<byte>, into: seq<byte>)
    requires WellFormed(c) && NonOverlapping(c) && other != name
    requires length <= Length(c, name) ==> Length(c, name) <= |buffer|
    ensures var c' := Set(c, name, buffer, length).1;
            WellFormed(c') && Get(c', other, into) == Get(c, other, into)
  {
    hide Offset, FindFrom;
    var c' := Set(c, name, buffer, length).1;
    if 0 <= Length(c, name) && length <= Length(c, name) {
      var i := SetChangesData(c, name, buffer, length);
      DirectoryUnchanged(c, c', i);
      assert Find(c', other) == Find(c, other);
      if Find(c, other).Some? {
        var j := EntryOf(c, other);
        ItemUnchanged(c, c', i, j);
        SameExtent(c, c', Offset(c, j));
      }
    }
  }

  lemma EntryOf(c: seq<byte>, name: seq<byte>) returns (j: nat)
    requires WellFormed(c) && Find(c, name).Some?
    ensures j < Count(c) && Find(c, name) == Some(Offset(c, j)) && Name(c, Offset(c, j)) == name
  {
    j := FindFrom(c, name, 0).value;
  }

  /** conf_set refuses lengths above the item's, conf_get refuses those below it: a caller that
      uses one length for both succeeds with both exactly if it is the item's. */
  lemma BothSucceedIff(c: seq<byte>, name: seq<byte>, buffer: seq<byte>, into: seq<byte>)
    requires WellFormed(c) && 0 <= Length(c, name) <= |buffer|
    ensures Set(c, name, buffer, |into|).0 >= 0 && Get(c, name, into).0 >= 0 <==> |into| == Length(c, name)
  {
  }

  /** Writing twice is writing the second value. */
  lemma SetOverwrites(c: seq<byte>, name: seq<byte>, a: seq<byte>, b: seq<byte>)
    requires WellFormed(c) && NonOverlapping(c) && Length(c, name) == |a| == |b|
    ensures var c' := Set(c, name, a, |a|).1;
            WellFormed(c') && Length(c', name) == |b| && Set(c', name, b, |b|) == Set(c, name, b, |b|)
  {
    hide Offset, FindFrom;
    var i := SetChangesData(c, name, a, |a|);
    var c' := Set(c, name, a, |a|).1;
    DirectoryUnchanged(c, c', i);
    ItemUnchanged(c, c', i, i);
    SameExtent(c, c', Offset(c, i));
    assert Find(c', name) == Find(c, name);
    assert Set(c', name, b, |b|).1 == Set(c, name, b, |b|).1;
  }

  // ---------------------------------------------------------------- the code

  method ConfFind(c: array<byte>, name: seq<byte>) returns (o: Option<nat>)
    requires WellFormed(c[..])
    ensures o == Find(c[..], name)
  {
    hide Fits, Name, Big16;
    ghost var f := c[..];
    var count := Big16(c[COUNT_AT], c[COUNT_AT + 1]);
    var offset := OFFSETS_AT;
    ghost var i := 0;
    while count > 0
      invariant count == Count(f) - i && 0 <= i <= Count(f) && offset == OFFSETS_AT + 2 * i
      invariant FindFrom(f, name, 0) == FindFrom(f, name, i)
      decreases count
    {
      var at := Big16(c[offset], c[offset + 1]);
      assert at == Offset(f, i) && Fits(f, at);
      var found := HasName(c, at, name);
      if found {
        return Some(at);
      }
      count := count - 1;
      offset := offset + 2;
      i := i + 1;
    }
    return None;
  }

  method HasName(c: array<byte>, at: nat, name: seq<byte>) returns (r: bool)
    requires Fits(c[..], at)
    ensures r <==> Name(c[..], at) == name
  {
    if |name| != NameLength(c[at]) {
      return false;
    }
    assert c[at + 1..at + 1 + |name|] == Name(c[..], at);
    return c[at + 1..at + 1 + |name|] == name;
  }

  method ConfGetLength(c: array<byte>, name: seq<byte>) returns (len: int)
    requires WellFormed(c[..])
    ensures len == Length(c[..], name)
  {
    var o := ConfFind(c, name);
    if o.None? {
      return ENOENT;
    }
    var entry := o.value;
    ghost var f := c[..];
    assert |name| == NameLength(f[entry]);
    var kind := Kind(c[entry]);
    if kind == BIGARRAY {
      return Big16(c[entry + |name| + 1], c[entry + |name| + 2]) + 1;
    } else if kind == SMALLARRAY {
      return c[entry + |name| + 1] as nat + 1;
    } else if kind == BYTE {
      return 1;
    } else if kind == SHORT {
      return 2;
    } else if kind == LONG {
      return 4;
    } else if kind == BOOL {
      return 1;
    }
    return ENOTIMPL;
  }

  method ConfGet(c: array<byte>, name: seq<byte>, buffer: array<byte>) returns (ret: int)
    requires WellFormed(c[..]) && buffer != c
    modifies buffer
    ensures (ret, buffer[..]) == Get(c[..], name, old(buffer[..]))
  {
    hide Fits, Find, NameLength;
    ghost var f := c[..];
    var o := ConfFind(c, name);
    if o.None? {
      return ENOENT;
    }
    var len := ConfGetLength(c, name);
    if len < 0 {
      return len;
    } else if len > buffer.Length {
      return ETOOBIG;
    }
    var at := Extent(c, name, o.value);
    if !IsArray(Kind(c[o.value])) {
      Clear(buffer);
    }
    ghost var tail := buffer[len..];
    CopyOut(c, at, len, buffer);
    assert !IsArray(Kind(f[o.value])) ==> tail == Fill(buffer.Length - len, 0);
    return len;
  }

  method Clear(buffer: array<byte>)
    modifies buffer
    ensures buffer[..] == Fill(buffer.Length, 0)
  {
    for k := 0 to buffer.Length
      invariant forall j :: 0 <= j < k ==> buffer[j] == 0
    {
      buffer[k] := 0;
    }
  }

  method CopyOut(c: array<byte>, at: nat, len: nat, buffer: array<byte>)
    requires buffer != c && at + len <= c.Length && len <= buffer.Length
    modifies buffer
    ensures buffer[..] == c[at..at + len] + old(buffer[len..])
  {
    for k := 0 to len
      invariant forall j :: 0 <= j < buffer.Length ==> buffer[j] == if j < k then c[at + j] else old(buffer[j])
    {
      buffer[k] := c[at + k];
    }
  }

  /** Where the data of a supported item starts. */
  method Extent(c: array<byte>, name: seq<byte>, o: nat) returns (at: nat)
    requires WellFormed(c[..]) && Find(c[..], name) == Some(o) && Length(c[..], name) >= 0
    ensures o < c.Length && at == DataAt(c[..], o) && at + Length(c[..], name) == ItemEnd(c[..], o) <= c.Length
  {
    ghost var f := c[..];
    assert |name| == NameLength(f[o]);
    var kind := Kind(c[o]);
    at := o + |name| + if kind == BIGARRAY then 3 else if kind == SMALLARRAY then 2 else 1;
  }

  method ConfSet(c: array<byte>, name: seq<byte>, buffer: seq<byte>, length: nat) returns (ret: int)
    requires WellFormed(c[..]) && (length <= Length(c[..], name) ==> Length(c[..], name) <= |buffer|)
    modifies c
    ensures (ret, c[..]) == Set(old(c[..]), name, buffer, length)
  {
    hide Fits, Find, NameLength;
    ghost var f := c[..];
    var o := ConfFind(c, name);
    if o.None? {
      return ENOENT;
    }
    var len := ConfGetLength(c, name);
    if len < 0 {
      return len;
    } else if len < length {
      return ETOOBIG;
    }
    var at := Extent(c, name, o.value);
    for k := 0 to len
      invariant forall j :: 0 <= j < |f| ==> c[j] == if at <= j < at + k then buffer[j - at] else f[j]
    {
      c[at + k] := buffer[k];
    }
    assert c[..] == Splice(f, at, buffer[..len]);
    return len;
  }
}
