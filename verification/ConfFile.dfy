/**
 * SYSCONF files as they are written (the format that source/conf.c reads): a printer of its own for
 * items and files, and what the accessors return of what was printed.
 */
module ConfFile {
  import opened Bytes
  import Conf

  /** Kinds: 1 and 2 are arrays with a length, 3 and 7 one byte, 4 two, 5 four; others are unsupported. */
  datatype Item = Item(kind: byte, name: seq<byte>, value: seq<byte>)

  predicate Printable(i: Item) {
    && i.kind < 8 && 1 <= |i.name| <= 16
    && (i.kind == 1 ==> 1 <= |i.value| <= 0x1_0000)
    && (i.kind == 2 ==> 1 <= |i.value| <= 0x100)
    && (i.kind == 3 || i.kind == 7 ==> |i.value| == 1)
    && (i.kind == 4 ==> |i.value| == 2)
    && (i.kind == 5 ==> |i.value| == 4)
  }

  predicate Supported(i: Item) { i.kind != 0 && i.kind != 6 }

  function BigEndian(n: nat): (s: seq<byte>)
    requires n < 0x1_0000
    ensures |s| == 2
    ensures Big16(s[0], s[1]) == n
  {
    [Byte(n / 0x100), Byte(n % 0x100)]
  }

  function KindAndLength(i: Item): byte
    requires Printable(i)
  {
    (i.kind << 5) | Byte(|i.name| - 1)
  }

  /** Arrays carry their length, less one. */
  function LengthField(i: Item): (s: seq<byte>)
    requires Printable(i)
    ensures |s| == if i.kind == 1 then 2 else if i.kind == 2 then 1 else 0
    ensures i.kind == 1 ==> Big16(s[0], s[1]) == |i.value| - 1
    ensures i.kind == 2 ==> s[0] as nat == |i.value| - 1
  {
    if i.kind == 1 then BigEndian(|i.value| - 1) else if i.kind == 2 then [Byte(|i.value| - 1)] else []
  }

  function ItemBytes(i: Item): (s: seq<byte>)
    requires Printable(i)
    ensures |s| == 1 + |i.name| + |LengthField(i)| + |i.value|
  {
    [KindAndLength(i)] + i.name + LengthField(i) + i.value
  }

  predicate AllPrintable(items: seq<Item>) {
    forall k :: 0 <= k < |items| ==> Printable(items[k])
  }

  /** The items one after the other. */
  function ItemsBytes(items: seq<Item>): seq<byte>
    requires AllPrintable(items)
  {
    if items == [] then [] else ItemsBytes(items[..|items| - 1]) + ItemBytes(items[|items| - 1])
  }

  function Start(items: seq<Item>, k: nat): nat
    requires AllPrintable(items) && k <= |items|
  {
    |ItemsBytes(items[..k])|
  }

  /** The offsets of the first k items, if the items begin at base. */
  function TableBytes(items: seq<Item>, base: nat, k: nat): (s: seq<byte>)
    requires AllPrintable(items) && k <= |items| && base + |ItemsBytes(items)| < 0x1_0000
    ensures |s| == 2 * k
  {
    if k == 0 then []
    else
      StartsGrow(items, k - 1, |items|);
      TableBytes(items, base, k - 1) + BigEndian(base + Start(items, k - 1))
  }

  predicate FileFits(magic: seq<byte>, items: seq<Item>) {
    |magic| == 4 && AllPrintable(items) && 6 + 2 * |items| + |ItemsBytes(items)| < 0x1_0000
  }

  /** Four bytes that nobody reads, the count, the offsets, the items, and whatever else follows. */
  function FileBytes(magic: seq<byte>, items: seq<Item>, rest: seq<byte>): seq<byte>
    requires FileFits(magic, items)
  {
    var n := |items|;
    Joined(magic, BigEndian(n), TableBytes(items, 6 + 2 * n, n), ItemsBytes(items), rest)
  }

  function Joined(magic: seq<byte>, count: seq<byte>, table: seq<byte>, items: seq<byte>, rest: seq<byte>): (s: seq<byte>)
    requires |magic| == 4 && |count| == 2
    ensures |s| == 6 + |table| + |items| + |rest| && s[4] == count[0] && s[5] == count[1]
    ensures s[6..6 + |table|] == table && s[6 + |table|..6 + |table| + |items|] == items
  {
    magic + count + table + items + rest
  }

  // ---------------------------------------------------------------- where things are

  lemma {:induction false} StartsGrow(items: seq<Item>, j: nat, k: nat)
    requires AllPrintable(items) && j <= k <= |items|
    ensures Start(items, j) <= Start(items, k)
    ensures Start(items, |items|) == |ItemsBytes(items)|
    decreases k - j
  {
    assert items[..|items|] == items;
    if j < k {
      StartsGrow(items, j, k - 1);
      NextStart(items, k - 1);
    }
  }

  lemma NextStart(items: seq<Item>, k: nat)
    requires AllPrintable(items) && k < |items|
    ensures ItemsBytes(items[..k + 1]) == ItemsBytes(items[..k]) + ItemBytes(items[k])
    ensures Start(items, k + 1) == Start(items, k) + |ItemBytes(items[k])|
  {
    assert items[..k + 1][..k] == items[..k];
  }

  /** The first k items come first. */
  lemma {:induction false} ItemsPrefix(items: seq<Item>, k: nat, n: nat)
    requires AllPrintable(items) && k <= n <= |items|
    ensures Start(items, k) <= Start(items, n)
    ensures ItemsBytes(items[..n])[..Start(items, k)] == ItemsBytes(items[..k])
    decreases n
  {
    hide ItemsBytes, ItemBytes;
    if k < n {
      ItemsPrefix(items, k, n - 1);
      NextStart(items, n - 1);
      LongerPrefix(ItemsBytes(items[..k]), ItemsBytes(items[..n - 1]), ItemBytes(items[n - 1]));
    } else {
      LongerPrefix(ItemsBytes(items[..k]), ItemsBytes(items[..k]), []);
    }
  }

  lemma LongerPrefix(p: seq<byte>, s: seq<byte>, more: seq<byte>)
    requires |p| <= |s| && s[..|p|] == p
    ensures (s + more)[..|p|] == p && s + [] == s
  {
  }

  lemma ItemAt(items: seq<Item>, k: nat)
    requires AllPrintable(items) && k < |items|
    ensures Start(items, k) + |ItemBytes(items[k])| <= |ItemsBytes(items)|
    ensures ItemsBytes(items)[Start(items, k)..Start(items, k) + |ItemBytes(items[k])|] == ItemBytes(items[k])
  {
    NextStart(items, k);
    ItemsPrefix(items, k + 1, |items|);
    assert items[..|items|] == items;
    var all, first := ItemsBytes(items), ItemsBytes(items[..k + 1]);
    assert all[..|first|] == first;
    assert all[Start(items, k)..|first|] == first[Start(items, k)..];
  }

  lemma {:induction false} TableAt(items: seq<Item>, base: nat, k: nat, n: nat)
    requires AllPrintable(items) && k < n <= |items| && base + |ItemsBytes(items)| < 0x1_0000
    ensures var s := TableBytes(items, base, n); Big16(s[2 * k], s[2 * k + 1]) == base + Start(items, k)
    decreases n
  {
    hide Big16;
    StartsGrow(items, n - 1, |items|);
    var before := TableBytes(items, base, n - 1);
    var last := BigEndian(base + Start(items, n - 1));
    assert TableBytes(items, base, n) == before + last;
    if k < n - 1 {
      TableAt(items, base, k, n - 1);
    } else {
      assert (before + last)[2 * k] == last[0] && (before + last)[2 * k + 1] == last[1];
    }
  }

  // ---------------------------------------------------------------- one item

  lemma HeaderByte(kind: byte, n: byte)
    requires kind < 8 && n < 16
    ensures Conf.Kind((kind << 5) | n) == kind && ((kind << 5) | n) & 0x0F == n
  {
  }

  lemma NameByte(name: seq<byte>)
    requires 1 <= |name| <= 16
    ensures Byte(|name| - 1) < 16
  {
    ByteBelow(Byte(|name| - 1));
  }

  lemma ByteBelow(b: byte)
    requires b as nat < 16
    ensures b < 16
  {
  }

  lemma FourParts(c: seq<byte>, o: nat, a: seq<byte>, b: seq<byte>, d: seq<byte>, e: seq<byte>)
    requires |a| == 1 && o + 1 + |b| + |d| + |e| <= |c| && c[o..o + 1 + |b| + |d| + |e|] == a + b + d + e
    ensures var (p, q) := (o + 1 + |b|, o + 1 + |b| + |d|);
            c[o] == a[0] && c[o + 1..p] == b && c[p..q] == d && c[q..q + |e|] == e
  {
    var all, n, m := a + b + d + e, 1 + |b|, 1 + |b| + |d|;
    assert all[0] == a[0] && all[1..n] == b && all[n..m] == d && all[m..] == e;
    SliceOfSlice(c, o, |all|, 1, n);
    SliceOfSlice(c, o, |all|, n, m);
    SliceOfSlice(c, o, |all|, m, |all|);
    assert c[o..o + |all|][0] == c[o];
  }

  /** The accessors find of a printed item what was printed. */
  lemma ItemIsRead(c: seq<byte>, o: nat, i: Item)
    requires Printable(i) && o + |ItemBytes(i)| <= |c| && c[o..o + |ItemBytes(i)|] == ItemBytes(i)
    ensures Conf.Fits(c, o) && Conf.Name(c, o) == i.name && Conf.Kind(c[o]) == i.kind
    ensures Conf.ItemEnd(c, o) <= o + |ItemBytes(i)|
    ensures Conf.DataLength(c, o) == if Supported(i) then Some(|i.value|) else None
    ensures Supported(i) ==> Conf.Data(c, o) == i.value
  {
    hide Byte, Big16, Conf.Kind, Conf.NameLength, KindAndLength, LengthField, Conf.DataLength;
    FourParts(c, o, [KindAndLength(i)], i.name, LengthField(i), i.value);
    FirstByte(i);
    LengthIsRead(c, o, i);
  }

  lemma FirstByte(i: Item)
    requires Printable(i)
    ensures Conf.Kind(KindAndLength(i)) == i.kind && Conf.NameLength(KindAndLength(i)) == |i.name|
  {
    hide Conf.Kind, Byte;
    NameByte(i.name);
    HeaderByte(i.kind, Byte(|i.name| - 1));
  }

  lemma LengthIsRead(c: seq<byte>, o: nat, i: Item)
    requires Printable(i) && o + 1 + |i.name| + |LengthField(i)| <= |c|
    requires Conf.Kind(c[o]) == i.kind && Conf.NameLength(c[o]) == |i.name|
    requires var at := o + 1 + |i.name|; c[at..at + |LengthField(i)|] == LengthField(i)
    ensures Conf.DataAt(c, o) == o + 1 + |i.name| + |LengthField(i)|
    ensures Conf.DataLength(c, o) == if Supported(i) then Some(|i.value|) else None
  {
    hide Big16, Conf.Kind, Conf.NameLength, LengthField;
    var at, field := o + 1 + |i.name|, LengthField(i);
    if |field| > 0 {
      assert c[at] == field[0];
      if |field| > 1 {
        assert c[at + 1] == field[1];
      }
    } else {
      SmallKinds(i.kind);
    }
  }

  lemma SmallKinds(kind: byte)
    requires kind < 8 && kind != 1 && kind != 2
    ensures kind in {0, 3, 4, 5, 6, 7}
  {
  }

  // ---------------------------------------------------------------- whole files

  lemma FileParts(magic: seq<byte>, items: seq<Item>, rest: seq<byte>)
    requires FileFits(magic, items)
    ensures var c, n := FileBytes(magic, items, rest), |items|;
            && |c| == 6 + 2 * n + |ItemsBytes(items)| + |rest| && c[4] == BigEndian(n)[0] && c[5] == BigEndian(n)[1]
            && c[6..6 + 2 * n] == TableBytes(items, 6 + 2 * n, n)
            && c[6 + 2 * n..6 + 2 * n + |ItemsBytes(items)|] == ItemsBytes(items)
  {
    hide BigEndian, TableBytes, ItemsBytes, Joined;
  }

  /** The directory of a printed file. */
  lemma FileIsRead(magic: seq<byte>, items: seq<Item>, rest: seq<byte>, k: nat)
    requires FileFits(magic, items) && k < |items|
    ensures var c := FileBytes(magic, items, rest);
            && Conf.HasTable(c) && Conf.Count(c) == |items| && Conf.Offset(c, k) == 6 + 2 * |items| + Start(items, k)
            && var o := Conf.Offset(c, k); o + |ItemBytes(items[k])| <= |c| && c[o..o + |ItemBytes(items[k])|] == ItemBytes(items[k])
  {
    hide BigEndian, Big16, FileBytes, TableBytes, ItemsBytes, Start, ItemBytes;
    var c, n := FileBytes(magic, items, rest), |items|;
    FileParts(magic, items, rest);
    TableAt(items, 6 + 2 * n, k, n);
    ItemAt(items, k);
    CountIsRead(c, n);
    var table := TableBytes(items, 6 + 2 * n, n);
    assert c[6 + 2 * k] == table[2 * k] && c[6 + 2 * k + 1] == table[2 * k + 1];
    var a, z := Start(items, k), Start(items, k) + |ItemBytes(items[k])|;
    SliceOfSlice(c, 6 + 2 * n, |ItemsBytes(items)|, a, z);
  }

  lemma SliceOfSlice(c: seq<byte>, at: nat, n: nat, a: nat, z: nat)
    requires at + n <= |c| && a <= z <= n
    ensures c[at + a..at + z] == c[at..at + n][a..z]
  {
    var whole := c[at..at + n];
    forall i | 0 <= i < z - a ensures c[at + a..at + z][i] == whole[a..z][i] {
      assert whole[a + i] == c[at + (a + i)];
    }
  }

  lemma CountIsRead(c: seq<byte>, n: nat)
    requires n < 0x1_0000 && |c| >= 6 && c[4] == BigEndian(n)[0] && c[5] == BigEndian(n)[1]
    ensures Conf.Count(c) == n
  {
    hide Big16;
  }

  lemma EmptyFileIsRead(magic: seq<byte>, rest: seq<byte>)
    requires FileFits(magic, [])
    ensures Conf.HasTable(FileBytes(magic, [], rest)) && Conf.Count(FileBytes(magic, [], rest)) == 0
  {
    hide BigEndian, FileBytes;
    FileParts(magic, [], rest);
    CountIsRead(FileBytes(magic, [], rest), 0);
  }

  lemma ItemPlaced(magic: seq<byte>, items: seq<Item>, rest: seq<byte>, k: nat)
    requires FileFits(magic, items) && k < |items|
    ensures var c := FileBytes(magic, items, rest);
            && Conf.HasTable(c) && Conf.Count(c) == |items| && Conf.Fits(c, Conf.Offset(c, k))
            && Conf.Offset(c, k) == 6 + 2 * |items| + Start(items, k)
            && Conf.ItemEnd(c, Conf.Offset(c, k)) <= 6 + 2 * |items| + Start(items, k + 1)
  {
    hide FileBytes, ItemsBytes, ItemBytes, Conf.Offset;
    var c := FileBytes(magic, items, rest);
    FileIsRead(magic, items, rest, k);
    ItemIsRead(c, Conf.Offset(c, k), items[k]);
    NextStart(items, k);
  }

  /** A printed file is one the accessors can work on. */
  lemma FileIsWellFormed(magic: seq<byte>, items: seq<Item>, rest: seq<byte>)
    requires FileFits(magic, items)
    ensures var c := FileBytes(magic, items, rest);
            Conf.WellFormed(c) && Conf.NonOverlapping(c) && Conf.Count(c) == |items|
  {
    hide FileBytes, FileFits, Start, Conf.Offset, Conf.Count, Conf.Fits, Conf.ItemEnd, Conf.HasTable;
    var c := FileBytes(magic, items, rest);
    if items == [] {
      EmptyFileIsRead(magic, rest);
    } else {
      ItemPlaced(magic, items, rest, 0);
    }
    forall k | 0 <= k < |items| ensures Conf.Fits(c, Conf.Offset(c, k)) && 6 + 2 * |items| <= Conf.Offset(c, k) {
      ItemPlaced(magic, items, rest, k);
    }
    forall j, k | 0 <= j < k < |items| ensures Conf.Apart(c, Conf.Offset(c, j), Conf.Offset(c, k)) {
      ItemPlaced(magic, items, rest, j);
      ItemPlaced(magic, items, rest, k);
      ItemsInOrder(magic, items, j, k);
    }
  }

  lemma ItemsInOrder(magic: seq<byte>, items: seq<Item>, j: nat, k: nat)
    requires FileFits(magic, items) && j < k <= |items|
    ensures Start(items, j + 1) <= Start(items, k)
  {
    StartsGrow(items, j + 1, k);
  }

  /** Item k is the first of its name. */
  predicate First(items: seq<Item>, k: nat) {
    k < |items| && forall j :: 0 <= j < k ==> items[j].name != items[k].name
  }

  lemma {:induction false} FindsFirst(magic: seq<byte>, items: seq<Item>, rest: seq<byte>, name: seq<byte>, i: nat)
    requires FileFits(magic, items) && i <= |items| && Conf.WellFormed(FileBytes(magic, items, rest))
    requires Conf.Count(FileBytes(magic, items, rest)) == |items|
    requires forall j :: 0 <= j < i ==> items[j].name != name
    ensures var r := Conf.FindFrom(FileBytes(magic, items, rest), name, i);
            if r.Some? then r.value < |items| && First(items, r.value) && items[r.value].name == name
            else forall j :: 0 <= j < |items| ==> items[j].name != name
    decreases |items| - i
  {
    hide FileBytes, FileFits, Conf.WellFormed;
    if i < |items| {
      NameOf(magic, items, rest, i);
      if items[i].name != name {
        FindsFirst(magic, items, rest, name, i + 1);
      }
    }
  }

  lemma NameOf(magic: seq<byte>, items: seq<Item>, rest: seq<byte>, k: nat)
    requires FileFits(magic, items) && k < |items|
    ensures var c := FileBytes(magic, items, rest);
            && Conf.HasTable(c) && k < Conf.Count(c) && Conf.Fits(c, Conf.Offset(c, k))
            && Conf.Name(c, Conf.Offset(c, k)) == items[k].name
  {
    hide FileBytes, ItemBytes;
    FileIsRead(magic, items, rest, k);
    ItemIsRead(FileBytes(magic, items, rest), Conf.Offset(FileBytes(magic, items, rest), k), items[k]);
  }

  /** conf_get on a printed file: the value of the first item of that name, filled up with zeros if it is
      not an array; and the three errors. */
  lemma GetReturnsPrinted(magic: seq<byte>, items: seq<Item>, rest: seq<byte>, name: seq<byte>, into: seq<byte>)
    requires FileFits(magic, items)
    ensures var c := FileBytes(magic, items, rest);
            && Conf.WellFormed(c)
            && ((forall j :: 0 <= j < |items| ==> items[j].name != name) ==> Conf.Get(c, name, into) == (-0x6002, into))
            && forall k :: 0 <= k < |items| && First(items, k) && items[k].name == name ==>
                 var v := items[k].value;
                 Conf.Get(c, name, into) ==
                 if !Supported(items[k]) then (-0x6005, into)
                 else if |v| > |into| then (-0x6003, into)
                 else (|v|, v + if items[k].kind <= 2 then into[|v|..] else Fill(|into| - |v|, 0))
  {
    hide FileBytes, ItemBytes, ItemsBytes, Conf.WellFormed, First, Conf.Data, Conf.DataLength, Conf.Kind, Conf.FindFrom;
    var c := FileBytes(magic, items, rest);
    FileIsWellFormed(magic, items, rest);
    FindsFirst(magic, items, rest, name, 0);
    var r := Conf.FindFrom(c, name, 0);
    if r.Some? {
      FileIsRead(magic, items, rest, r.value);
      ItemIsRead(c, Conf.Offset(c, r.value), items[r.value]);
      OnlyFirst(items, r.value, name);
      ArrayKinds(items[r.value].kind);
    }
  }

  lemma OnlyFirst(items: seq<Item>, i: nat, name: seq<byte>)
    requires First(items, i) && items[i].name == name
    ensures forall k :: 0 <= k < |items| && First(items, k) && items[k].name == name ==> k == i
  {
  }

  lemma ArrayKinds(kind: byte)
    ensures kind != 0 ==> (Conf.IsArray(kind) <==> kind <= 2)
  {
  }

  // ---------------------------------------------------------------- writing

  /** The items with the value of item k replaced by one of the same length. */
  function Replaced(items: seq<Item>, k: nat, value: seq<byte>): (r: seq<Item>)
    requires AllPrintable(items) && k < |items| && |value| == |items[k].value|
    ensures AllPrintable(r) && |r| == |items|
  {
    items[k := items[k].(value := value)]
  }

  /** Where the value of item k lies among the items. */
  function ValueStart(items: seq<Item>, k: nat): nat
    requires AllPrintable(items) && k < |items|
  {
    Start(items, k) + |ItemBytes(items[k])| - |items[k].value|
  }

  lemma SpliceFront(a: seq<byte>, b: seq<byte>, at: nat, src: seq<byte>)
    requires at + |src| <= |a|
    ensures Splice(a + b, at, src) == Splice(a, at, src) + b
  {
  }

  lemma SpliceBack(a: seq<byte>, b: seq<byte>, at: nat, src: seq<byte>)
    requires |a| <= at && at + |src| <= |a| + |b|
    ensures Splice(a + b, at, src) == a + Splice(b, at - |a|, src)
  {
  }

  lemma WholeSplice(a: seq<byte>, src: seq<byte>)
    requires |a| == |src|
    ensures Splice(a, 0, src) == src
  {
  }

  lemma OneItemReplaced(i: Item, value: seq<byte>)
    requires Printable(i) && |value| == |i.value|
    ensures Printable(i.(value := value))
    ensures ItemBytes(i.(value := value)) == Splice(ItemBytes(i), |ItemBytes(i)| - |value|, value)
  {
    hide Byte, Big16, Splice;
    var j := i.(value := value);
    assert LengthField(j) == LengthField(i) && KindAndLength(j) == KindAndLength(i);
    var front := [KindAndLength(i)] + i.name + LengthField(i);
    SpliceBack(front, i.value, |front|, value);
    WholeSplice(i.value, value);
  }

  lemma {:induction false} ItemsReplaced(items: seq<Item>, k: nat, value: seq<byte>, n: nat)
    requires AllPrintable(items) && k < |items| && |value| == |items[k].value| && n <= |items|
    ensures var items' := Replaced(items, k, value);
            && Start(items', n) == Start(items, n)
            && (n <= k ==> ItemsBytes(items'[..n]) == ItemsBytes(items[..n]))
            && (n > k ==>
                  && ValueStart(items, k) + |value| <= Start(items, n)
                  && ItemsBytes(items'[..n]) == Splice(ItemsBytes(items[..n]), ValueStart(items, k), value))
    decreases n
  {
    hide ItemBytes, ItemsBytes;
    var items' := Replaced(items, k, value);
    if n == 0 {
      assert items'[..0] == items[..0];
    } else {
      ItemsReplaced(items, k, value, n - 1);
      NextStart(items, n - 1);
      NextStart(items', n - 1);
      OneItemReplaced(items[k], value);
      if n - 1 == k {
        SpliceBack(ItemsBytes(items[..k]), ItemBytes(items[k]), ValueStart(items, k), value);
      } else if n - 1 > k {
        SpliceFront(ItemsBytes(items[..n - 1]), ItemBytes(items[n - 1]), ValueStart(items, k), value);
      }
    }
  }

  lemma {:induction false} TableKept(items: seq<Item>, items': seq<Item>, base: nat, n: nat)
    requires AllPrintable(items) && AllPrintable(items') && n <= |items| == |items'|
    requires base + |ItemsBytes(items)| < 0x1_0000 && base + |ItemsBytes(items')| < 0x1_0000
    requires forall j :: 0 <= j <= n ==> Start(items', j) == Start(items, j)
    ensures TableBytes(items', base, n) == TableBytes(items, base, n)
  {
    hide Start, BigEndian;
    if n > 0 {
      StartsGrow(items, n - 1, |items|);
      StartsGrow(items', n - 1, |items|);
      TableKept(items, items', base, n - 1);
    }
  }

  /** Writing over a value in place is printing the file with that value. */
  lemma FileReplaced(magic: seq<byte>, items: seq<Item>, rest: seq<byte>, k: nat, value: seq<byte>)
    requires FileFits(magic, items) && k < |items| && |value| == |items[k].value|
    ensures FileFits(magic, Replaced(items, k, value))
    ensures var c, at := FileBytes(magic, items, rest), 6 + 2 * |items| + ValueStart(items, k);
            at + |value| <= |c| && Splice(c, at, value) == FileBytes(magic, Replaced(items, k, value), rest)
  {
    hide ItemsBytes, TableBytes, BigEndian, ItemBytes, ValueStart;
    var items', n := Replaced(items, k, value), |items|;
    forall j | 0 <= j <= n ensures Start(items', j) == Start(items, j) {
      ItemsReplaced(items, k, value, j);
    }
    ItemsReplaced(items, k, value, n);
    assert items[..n] == items && items'[..n] == items';
    TableKept(items, items', 6 + 2 * n, n);
    JoinedSplice(magic, BigEndian(n), TableBytes(items, 6 + 2 * n, n), ItemsBytes(items), rest, ValueStart(items, k), value);
  }

  lemma JoinedSplice(magic: seq<byte>, count: seq<byte>, table: seq<byte>, items: seq<byte>, rest: seq<byte>, at: nat, value: seq<byte>)
    requires |magic| == 4 && |count| == 2 && at + |value| <= |items|
    ensures Splice(Joined(magic, count, table, items, rest), 6 + |table| + at, value) ==
            Joined(magic, count, table, Splice(items, at, value), rest)
  {
    hide Splice;
    var front := magic + count + table;
    assert |front| == 6 + |table|;
    SpliceFront(front + items, rest, 6 + |table| + at, value);
    SpliceBack(front, items, 6 + |table| + at, value);
  }

  /** conf_set on a printed file: the error of its case and the same file, or the file printed with the
      new value, which has the item's own length whatever the caller's is. */
  lemma SetReprints(magic: seq<byte>, items: seq<Item>, rest: seq<byte>, name: seq<byte>, buffer: seq<byte>, length: nat)
    requires FileFits(magic, items)
    requires forall j :: 0 <= j < |items| && items[j].name == name ==> |items[j].value| <= |buffer|
    ensures var c := FileBytes(magic, items, rest);
            && Conf.WellFormed(c) && (length <= Conf.Length(c, name) ==> Conf.Length(c, name) <= |buffer|)
            && ((forall j :: 0 <= j < |items| ==> items[j].name != name) ==> Conf.Set(c, name, buffer, length) == (-0x6002, c))
            && forall k :: 0 <= k < |items| && First(items, k) && items[k].name == name ==>
                 var n := |items[k].value|;
                 Conf.Set(c, name, buffer, length) ==
                 if !Supported(items[k]) then (-0x6005, c)
                 else if n < length then (-0x6003, c)
                 else (FileReplaced(magic, items, rest, k, buffer[..n]);
                       (n, FileBytes(magic, Replaced(items, k, buffer[..n]), rest)))
  {
    hide FileBytes, ItemBytes, ItemsBytes, FileFits, Conf.WellFormed, First, Conf.Data, Conf.DataLength, Conf.DataAt, Conf.Kind,
         Conf.FindFrom, Replaced, Splice;
    var c := FileBytes(magic, items, rest);
    FileIsWellFormed(magic, items, rest);
    FindsFirst(magic, items, rest, name, 0);
    var r := Conf.FindFrom(c, name, 0);
    if r.Some? {
      FirstIs(items, r.value);
      FileIsRead(magic, items, rest, r.value);
      PrintableItem(magic, items, r.value);
      ItemIsRead(c, Conf.Offset(c, r.value), items[r.value]);
      OnlyFirst(items, r.value, name);
      ValuePlace(magic, items, rest, r.value);
      if Supported(items[r.value]) {
        FileReplaced(magic, items, rest, r.value, buffer[..|items[r.value].value|]);
      }
    }
  }

  lemma FirstIs(items: seq<Item>, k: nat)
    requires First(items, k)
    ensures k < |items|
  {
  }

  lemma PrintableItem(magic: seq<byte>, items: seq<Item>, k: nat)
    requires FileFits(magic, items) && k < |items|
    ensures Printable(items[k])
  {
  }

  lemma ValuePlace(magic: seq<byte>, items: seq<Item>, rest: seq<byte>, k: nat)
    requires FileFits(magic, items) && k < |items|
    ensures var c := FileBytes(magic, items, rest);
            && Conf.HasTable(c) && k < Conf.Count(c) && Conf.Offset(c, k) < |c|
            && Conf.DataAt(c, Conf.Offset(c, k)) == 6 + 2 * |items| + ValueStart(items, k)
  {
    hide FileBytes, ItemsBytes, Conf.Kind, Conf.NameLength, KindAndLength, LengthField, Conf.DataLength;
    var c := FileBytes(magic, items, rest);
    FileIsRead(magic, items, rest, k);
    var o, i := Conf.Offset(c, k), items[k];
    FourParts(c, o, [KindAndLength(i)], i.name, LengthField(i), i.value);
    FirstByte(i);
    LengthIsRead(c, o, i);
  }
}
