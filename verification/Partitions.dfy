/**
 make_configuration_absolute of fon-flash.cpp: three flash partitions of given, file-determined or
 maximal length are given absolute addresses and lengths.
 */
module Partitions {
  import opened Words

  datatype Kind = File | Size | Max
  datatype Part = Part(kind: Kind, length: nat, fileId: Option<string>, address: nat)
  type Slot = Option<Part>
  type Layout = l: seq<Slot> | |l| == 3 witness [None, None, None]

  /** The names and sizes of the image files. */
  type Files = seq<(string, nat)>

  /** unsigned long arithmetic, of 32 bits. */
  function Wrap(n: int): nat { n % TWO32 }

  /** ((n - 1) / page + 1) * page */
  function RoundUp(n: nat, page: nat): nat
    requires page > 0
  {
    Wrap((Wrap(n - 1) / page + 1) * page)
  }

  function RoundDown(n: nat, page: nat): nat
    requires page > 0
  {
    n / page * page
  }

  /** The size of a file among the first n, the last one of that name. */
  function SizeOf(files: Files, id: string, n: nat): Option<nat>
    requires n <= |files|
  {
    if n == 0 then None
    else if files[n - 1].0 == id then Some(files[n - 1].1)
    else SizeOf(files, id, n - 1)
  }

  /** At most three files are looked at. */
  function FileSize(files: Files, id: Option<string>): Option<nat> {
    if id.None? then None else SizeOf(files, id.value, Min(|files|, 3))
  }

  // ----- First pass: lengths -----

  function Sized(s: Slot, page: nat, files: Files): Slot
    requires page > 0
  {
    match s
    case None => None
    case Some(p) =>
      match p.kind
      case File =>
        var size := FileSize(files, p.fileId);
        if size.Some? then Some(p.(kind := Size, length := RoundUp(size.value, page))) else s
      case Size => Some(p.(length := RoundUp(p.length, page)))
      case Max => s
  }

  function SizedAll(l: Layout, page: nat, files: Files): Layout
    requires page > 0
  {
    [Sized(l[0], page, files), Sized(l[1], page, files), Sized(l[2], page, files)]
  }

  /** What a slot adds to non_max_length_sum. */
  function Counted(s: Slot): nat {
    if s.Some? && !s.value.kind.Max? then s.value.length else 0
  }

  function NonMax(l: Layout): nat { SumOf(l, 3) }

  // ----- Second pass: addresses -----

  /** One partition, given where the one before it ends, and the slot after it. */
  function Placed(s: Slot, after: Slot, next: nat, space: nat): Slot {
    match s
    case None => None
    case Some(p) =>
      var at := if p.address == 0 then next else p.address;
      if p.kind.Max? then
        var boundary := if after.Some? && after.value.address > 0 then Wrap(after.value.address - at) else space;
        Some(p.(address := at, kind := Size, length := if space < boundary then space else boundary))
      else Some(p.(address := at))
  }

  /** next_part_start after a slot. */
  function End(s: Slot, next: nat): nat {
    if s.Some? then Wrap(s.value.address + s.value.length) else next
  }

  function PlacedAll(l: Layout, start: nat, space: nat): Layout {
    var a := Placed(l[0], l[1], start, space);
    var b := Placed(l[1], l[2], End(a, start), space);
    var c := Placed(l[2], None, End(b, End(a, start)), space);
    [a, b, c]
  }

  function Absolute(l: Layout, start: nat, size: nat, page: nat, files: Files): Layout
    requires page > 0
  {
    var sized := SizedAll(l, page, files);
    PlacedAll(sized, start, RoundDown(Wrap(size - NonMax(sized)), page))
  }

  /** The search among the files, for a part whose length is that of a file. */
  method FindFile(files: Files, id: Option<string>) returns (size: Option<nat>)
    ensures size == FileSize(files, id)
  {
    size := None;
    var i := 0;
    while i < |files| && id.Some? && i < 3
      invariant 0 <= i <= Min(|files|, 3) && (id.Some? ==> size == SizeOf(files, id.value, i)) && (id.None? ==> size == None)
    {
      if files[i].0 == id.value {
        size := Some(files[i].1);
      }
      i := i + 1;
    }
  }

  /** The first loop for one slot. */
  method SizeOne(s: Slot, page: nat, files: Files, sum: nat) returns (t: Slot, more: nat)
    requires page > 0
    ensures t == Sized(s, page, files) && more == (if Counts(s) then Wrap(sum + Counted(t)) else sum)
  {
    t, more := s, sum;
    if s.Some? {
      var p := s.value;
      if p.kind.File? {
        var size := FindFile(files, p.fileId);
        if size.Some? {
          p := p.(length := RoundUp(size.value, page), kind := Size);
        }
        more := Wrap(sum + p.length);
      } else if p.kind.Size? {
        p := p.(length := RoundUp(p.length, page));
        more := Wrap(sum + p.length);
      }
      t := Some(p);
    }
  }

  predicate Counts(s: Slot) { s.Some? && !s.value.kind.Max? }

  /** non_max_length_sum after the first i slots. */
  function SumOf(l: Layout, i: nat): nat
    requires i <= 3
  {
    if i == 0 then 0 else if Counts(l[i - 1]) then Wrap(SumOf(l, i - 1) + l[i - 1].value.length) else SumOf(l, i - 1)
  }

  /** The first loop, with the sum it computes. */
  method SizePass(parts: array<Slot>, page: nat, files: Files) returns (sum: nat)
    requires parts.Length == 3 && page > 0
    modifies parts
    ensures parts[..] == SizedAll(old(parts[..]), page, files) && sum == NonMax(parts[..])
  {
    ghost var l: Layout := parts[..];
    ghost var sized := SizedAll(l, page, files);
    sum := 0;
    var i := 0;
    while i < 3
      invariant 0 <= i <= 3
      invariant forall k :: 0 <= k < i ==> parts[k] == sized[k]
      invariant forall k :: i <= k < 3 ==> parts[k] == l[k]
      invariant sum == SumOf(sized, i)
    {
      parts[i], sum := SizeOne(parts[i], page, files, sum);
      i := i + 1;
    }
    assert parts[..] == sized;
  }

  /** The second loop for one slot. */
  method PlaceOne(parts: array<Slot>, i: nat, next: nat, size: nat, sum: nat, page: nat) returns (end: nat)
    requires parts.Length == 3 && i < 3 && page > 0
    modifies parts
    ensures parts[i] == Placed(old(parts[i]), if i < 2 then old(parts[i + 1]) else None, next, RoundDown(Wrap(size - sum), page))
    ensures end == End(parts[i], next)
    ensures forall k :: 0 <= k < 3 && k != i ==> parts[k] == old(parts[k])
  {
    end := next;
    if parts[i].Some? {
      var p := parts[i].value;
      if p.address == 0 {
        p := p.(address := next);
      }
      if p.kind.Max? {
        var spaceMax := RoundDown(Wrap(size - sum), page);
        var boundary := spaceMax;
        if i < 2 && parts[i + 1].Some? && parts[i + 1].value.address > 0 {
          boundary := Wrap(parts[i + 1].value.address - p.address);
        }
        p := p.(length := if spaceMax < boundary then spaceMax else boundary, kind := Size);
      }
      parts[i] := Some(p);
      end := Wrap(p.address + p.length);
    }
  }

  method MakeAbsolute(parts: array<Slot>, start: nat, size: nat, page: nat, files: Files)
    requires parts.Length == 3 && page > 0
    modifies parts
    ensures parts[..] == Absolute(old(parts[..]), start, size, page, files)
  {
    var sum := SizePass(parts, page, files);
    ghost var space, sized: Layout := RoundDown(Wrap(size - sum), page), parts[..];
    ghost var done := PlacedAll(sized, start, space);
    var next, i := start, 0;
    while i < 3
      invariant 0 <= i <= 3
      invariant forall k :: 0 <= k < i ==> parts[k] == done[k]
      invariant forall k :: i <= k < 3 ==> parts[k] == sized[k]
      invariant next == EndOf(done, start, i)
    {
      next := PlaceOne(parts, i, next, size, sum, page);
      i := i + 1;
    }
    assert parts[..] == done;
  }

  /** next_part_start after the first i slots. */
  function EndOf(l: Layout, start: nat, i: nat): nat
    requires i <= 3
  {
    if i == 0 then start else End(l[i - 1], EndOf(l, start, i - 1))
  }

  // ----- What the layout is good for -----

  /** A partition without a fixed address, of a positive length if it has one of its own. */
  predicate Wanted(s: Slot, files: Files) {
    s.Some? ==>
      && s.value.address == 0
      && (s.value.kind.File? ==> FileSize(files, s.value.fileId).Some? && FileSize(files, s.value.fileId).value > 0)
      && (s.value.kind.Size? ==> s.value.length > 0)
  }

  predicate IsMax(s: Slot) { s.Some? && s.value.kind.Max? }

  predicate AtMostOneMax(l: Layout) {
    !(IsMax(l[0]) && IsMax(l[1])) && !(IsMax(l[0]) && IsMax(l[2])) && !(IsMax(l[1]) && IsMax(l[2]))
  }

  predicate HasMax(l: Layout) { IsMax(l[0]) || IsMax(l[1]) || IsMax(l[2]) }

  /** The least number of whole pages that holds n bytes, in bytes. */
  function Pages(n: nat, page: nat): nat
    requires page > 0 && n > 0
  {
    ((n - 1) / page + 1) * page
  }

  /** What a partition takes, apart from one of maximal length. */
  function Needs(s: Slot, page: nat, files: Files): nat
    requires page > 0 && Wanted(s, files)
  {
    if s.None? then 0
    else match s.value.kind
         case File => Pages(FileSize(files, s.value.fileId).value, page)
         case Size => Pages(s.value.length, page)
         case Max => 0
  }

  function LengthOf(s: Slot): nat { if s.Some? then s.value.length else 0 }

  /** The slots follow one another from `start` on, in whole pages. */
  predicate Tiles(l: Layout, page: nat, start: nat)
    requires page > 0
  {
    && InPlace(l[0], page, start)
    && InPlace(l[1], page, start + LengthOf(l[0]))
    && InPlace(l[2], page, start + LengthOf(l[0]) + LengthOf(l[1]))
  }

  predicate InPlace(s: Slot, page: nat, at: nat)
    requires page > 0
  {
    s.Some? ==> s.value.address == at && s.value.length % page == 0 && s.value.kind.Size?
  }

  lemma PagesIs(n: nat, page: nat)
    requires page > 0 && n > 0
    ensures Pages(n, page) % page == 0 && n <= Pages(n, page) < n + page
    ensures Pages(n, page) < TWO32 ==> RoundUp(n, page) == Pages(n, page)
  {
    var q := (n - 1) / page;
    assert n - 1 == q * page + (n - 1) % page;
    MultipleMod(q + 1, page);
    assert (q + 1) * page == q * page + page;
  }

  lemma MultipleMod(q: nat, page: nat)
    requires page > 0
    ensures q * page % page == 0
  {
    var x := q * page;
    assert x == x / page * page + x % page;
    var e: int := q - x / page;
    assert e * page == x % page;
    NoMultiple(e, page);
  }

  lemma RoundDownIs(n: nat, page: nat)
    requires page > 0
    ensures RoundDown(n, page) % page == 0 && RoundDown(n, page) <= n < RoundDown(n, page) + page
  {
    MultipleMod(n / page, page);
  }

  /**
   Partitions without fixed addresses tile the flash from its start in whole pages and stay inside;
   with a partition of maximal length, less than a page is left over.
   */
  lemma PartitionsTile(l: Layout, start: nat, size: nat, page: nat, files: Files)
    requires page > 0 && start + size < TWO32 && AtMostOneMax(l) && forall i :: 0 <= i < 3 ==> Wanted(l[i], files)
    requires Needs(l[0], page, files) + Needs(l[1], page, files) + Needs(l[2], page, files) <= size
    ensures var done := Absolute(l, start, size, page, files);
            var used := LengthOf(done[0]) + LengthOf(done[1]) + LengthOf(done[2]);
            && Tiles(done, page, start)
            && used <= size
            && (HasMax(l) ==> size - used < page)
  {
    var n0, n1, n2 := Needs(l[0], page, files), Needs(l[1], page, files), Needs(l[2], page, files);
    var sized := SizedAll(l, page, files);
    SizedWhole(l[0], page, files);
    SizedWhole(l[1], page, files);
    SizedWhole(l[2], page, files);
    SumIs(sized, n0, n1, n2);
    SpaceTiles(sized, start, size, page);
  }

  /** The second pass, on whole pages that fit. */
  lemma SpaceTiles(l: Layout, start: nat, size: nat, page: nat)
    requires page > 0 && start + size < TWO32 && AtMostOneMax(l)
    requires WholePages(l[0], page) && WholePages(l[1], page) && WholePages(l[2], page)
    requires NonMax(l) == Counted(l[0]) + Counted(l[1]) + Counted(l[2]) <= size
    ensures var done := PlacedAll(l, start, RoundDown(Wrap(size - NonMax(l)), page));
            var used := LengthOf(done[0]) + LengthOf(done[1]) + LengthOf(done[2]);
            Tiles(done, page, start) && used <= size && (HasMax(l) ==> size - used < page)
  {
    var free := size - NonMax(l);
    WrapSmall(free);
    RoundDownIs(free, page);
    PlacedTile(l, start, RoundDown(free, page), page);
  }

  lemma WrapSmall(n: nat)
    requires n < TWO32
    ensures Wrap(n) == n
  {}

  lemma SumIs(l: Layout, n0: nat, n1: nat, n2: nat)
    requires Counted(l[0]) == n0 && Counted(l[1]) == n1 && Counted(l[2]) == n2 && n0 + n1 + n2 < TWO32
    ensures NonMax(l) == n0 + n1 + n2
  {
    assert SumOf(l, 0) == 0;
    assert SumOf(l, 1) == n0;
    assert SumOf(l, 2) == n0 + n1;
  }

  lemma SizedWhole(s: Slot, page: nat, files: Files)
    requires page > 0 && Wanted(s, files) && Needs(s, page, files) < TWO32
    ensures var t := Sized(s, page, files);
            && (t.Some? <==> s.Some?) && (IsMax(t) <==> IsMax(s))
            && (t.Some? ==> t.value.address == 0)
            && (Counts(t) ==> t.value.kind.Size? && t.value.length == Needs(s, page, files) && t.value.length % page == 0)
            && Counted(t) == Needs(s, page, files)
  {
    if s.Some? {
      if s.value.kind.File? { PagesIs(FileSize(files, s.value.fileId).value, page); }
      if s.value.kind.Size? { PagesIs(s.value.length, page); }
    }
  }

  /** What the second pass makes of lengths that are whole pages. */
  predicate WholePages(s: Slot, page: nat)
    requires page > 0
  {
    s.Some? ==> s.value.address == 0 && (IsMax(s) || (s.value.kind.Size? && s.value.length % page == 0))
  }

  lemma PlacedTile(l: Layout, start: nat, space: nat, page: nat)
    requires page > 0 && space % page == 0 && AtMostOneMax(l)
    requires WholePages(l[0], page) && WholePages(l[1], page) && WholePages(l[2], page)
    requires start + Counted(l[0]) + Counted(l[1]) + Counted(l[2]) + space < TWO32
    ensures var done := PlacedAll(l, start, space);
            && Tiles(done, page, start)
            && LengthOf(done[0]) + LengthOf(done[1]) + LengthOf(done[2])
               == Counted(l[0]) + Counted(l[1]) + Counted(l[2]) + (if HasMax(l) then space else 0)
  {
    var a := Placed(l[0], l[1], start, space);
    PlacedWhole(l[0], l[1], start, space, page);
    var b := Placed(l[1], l[2], End(a, start), space);
    PlacedWhole(l[1], l[2], End(a, start), space, page);
    PlacedWhole(l[2], None, End(b, End(a, start)), space, page);
  }

  /** One partition, nothing after it being fixed. */
  lemma PlacedWhole(s: Slot, after: Slot, next: nat, space: nat, page: nat)
    requires page > 0 && space % page == 0 && WholePages(s, page) && WholePages(after, page)
    requires next + Counted(s) + (if IsMax(s) then space else 0) < TWO32
    ensures var t := Placed(s, after, next, space);
            && InPlace(t, page, next) && End(t, next) == next + LengthOf(t)
            && LengthOf(t) == Counted(s) + (if IsMax(s) then space else 0)
  {}

  /**
   In the resulting layout a fixed partition directly after one of maximal length keeps its address, and
   the one before ends at or before it if and only if it does not start beyond it; its length is then the
   smaller of the space that the others leave and the gap.
   */
  lemma MaxStopsAtFixed(l: Layout, start: nat, size: nat, page: nat, files: Files, i: nat)
    requires page > 0 && i < 2 && IsMax(l[i]) && l[i + 1].Some? && 0 < l[i + 1].value.address < TWO32
    requires start < TWO32 && l[i].value.address < TWO32
    ensures var done := Absolute(l, start, size, page, files);
            && done[i].Some? && done[i + 1].Some? && done[i + 1].value.address == l[i + 1].value.address
            && (done[i].value.address + done[i].value.length <= done[i + 1].value.address
                <==> done[i].value.address <= done[i + 1].value.address)
            && (done[i].value.address <= done[i + 1].value.address ==>
                  done[i].value.length == Min(Free(l, size, page, files), done[i + 1].value.address - done[i].value.address))
  {
    SizedKeeps(l[i], page, files);
    SizedKeeps(l[i + 1], page, files);
    var sized := SizedAll(l, page, files);
    MaxPlaced(sized, start, RoundDown(Wrap(size - NonMax(sized)), page), i);
  }

  /** The whole pages of the flash that partitions of other kinds leave. */
  function Free(l: Layout, size: nat, page: nat, files: Files): nat
    requires page > 0
  {
    RoundDown(Wrap(size - NonMax(SizedAll(l, page, files))), page)
  }

  /** Whether file i is the last of that name among those that are looked at. */
  predicate LastNamed(files: Files, id: string, i: nat) {
    && i < Min(|files|, 3) && files[i].0 == id
    && forall j :: i < j < Min(|files|, 3) ==> files[j].0 != id
  }

  /** The size found is that of the last file of the name; none is found if and only if there is no such file. */
  lemma SizeIsOfFile(files: Files, id: string)
    ensures FileSize(files, Some(id)).None? <==> forall i :: 0 <= i < Min(|files|, 3) ==> files[i].0 != id
    ensures forall i :: 0 <= i < |files| && LastNamed(files, id, i) ==> FileSize(files, Some(id)) == Some(files[i].1)
  {
    SizeFrom(files, id, Min(|files|, 3));
  }

  lemma {:induction false} SizeFrom(files: Files, id: string, n: nat)
    requires n <= |files|
    ensures SizeOf(files, id, n).None? <==> forall i :: 0 <= i < n ==> files[i].0 != id
    ensures forall i :: 0 <= i < n && files[i].0 == id && (forall j :: i < j < n ==> files[j].0 != id) ==>
              SizeOf(files, id, n) == Some(files[i].1)
  {
    if n > 0 {
      SizeFrom(files, id, n - 1);
    }
  }

  /** The first pass leaves addresses alone, and partitions of maximal length altogether. */
  lemma SizedKeeps(s: Slot, page: nat, files: Files)
    requires page > 0 && s.Some?
    ensures var t := Sized(s, page, files); t.Some? && t.value.address == s.value.address && (IsMax(s) ==> t == s)
  {}

  lemma MaxPlaced(l: Layout, start: nat, space: nat, i: nat)
    requires i < 2 && IsMax(l[i]) && l[i + 1].Some? && 0 < l[i + 1].value.address < TWO32
    requires start < TWO32 && l[i].value.address < TWO32
    ensures var done := PlacedAll(l, start, space);
            && done[i].Some? && done[i + 1].Some? && done[i + 1].value.address == l[i + 1].value.address
            && (done[i].value.address + done[i].value.length <= done[i + 1].value.address
                <==> done[i].value.address <= done[i + 1].value.address)
            && (done[i].value.address <= done[i + 1].value.address ==>
                  done[i].value.length == Min(space, done[i + 1].value.address - done[i].value.address))
  {
    var done := PlacedAll(l, start, space);
    if i == 0 {
      MaxThenFixed(l[0], l[1], start, space);
      FixedStays(l[1], l[2], End(done[0], start), space);
    } else {
      MaxThenFixed(l[1], l[2], End(done[0], start), space);
      FixedStays(l[2], None, End(done[1], End(done[0], start)), space);
    }
  }

  lemma MaxThenFixed(s: Slot, after: Slot, next: nat, space: nat)
    requires IsMax(s) && after.Some? && 0 < after.value.address < TWO32 && next < TWO32 && s.value.address < TWO32
    ensures var t := Placed(s, after, next, space);
            && t.Some? && (t.value.address + t.value.length <= after.value.address <==> t.value.address <= after.value.address)
            && (t.value.address <= after.value.address ==> t.value.length == Min(space, after.value.address - t.value.address))
  {}

  lemma FixedStays(s: Slot, after: Slot, next: nat, space: nat)
    requires s.Some? && s.value.address > 0
    ensures Placed(s, after, next, space).Some? && Placed(s, after, next, space).value.address == s.value.address
  {}
}
