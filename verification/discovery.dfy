/** What discovery requests find in a generated table: the entries each request
    selects, and how a client takes them apart. */
module Discovery {
  import opened Bytes
  import opened Att
  import opened AttributeTable
  import opened Replies

  // ---------------------------------------------- databases one can discover

  predicate DescOk(d: Descriptor)
  {
    IsUuid(d.uuid) && d.uuid != PRIMARY_SERVICE && d.uuid != CHARACTERISTIC
  }

  predicate CharOk(c: Characteristic)
  {
    && IsUuid(c.uuid) && c.uuid != PRIMARY_SERVICE && c.uuid != CHARACTERISTIC && c.uuid != CLIENT_CONFIG
    && forall i :: 0 <= i < |c.descs| ==> DescOk(c.descs[i])
  }

  predicate ServiceOk(s: Service)
  {
    IsUuid(s.uuid) && forall j :: 0 <= j < |s.chars| ==> CharOk(s.chars[j])
  }

  /** What the API asks of the services it is given. */
  predicate Publishable(ss: seq<Service>)
  {
    (forall k :: 0 <= k < |ss| ==> ServiceOk(ss[k])) && 1 + TableSize(ss, |ss|) <= 0xFFFF
  }

  // ------------------------------------------------- the order of the handles

  function LastOf(c: Characteristic): nat { c.h + 1 + |c.descs| }

  predicate CharLaid(c: Characteristic)
  {
    c.vh == c.h + 1 && forall i :: 0 <= i < |c.descs| ==> c.descs[i].h == c.h + 2 + i
  }

  ghost predicate ServiceLaid(s: Service)
  {
    && (forall j :: 0 <= j < |s.chars| ==>
          CharLaid(s.chars[j]) && s.h < s.chars[j].h && LastOf(s.chars[j]) <= Min(s.endh, 0xFFFE))
    && (forall i, j :: 0 <= i < j < |s.chars| ==> LastOf(s.chars[i]) < s.chars[j].h)
  }

  ghost predicate ServiceServed(s: Service)
  {
    ServiceOk(s) && ServiceLaid(s) && 1 <= s.h <= s.endh <= 0xFFFF
  }

  /** A placed database: every row lies in its service's range, and nothing overlaps. */
  ghost predicate Served(p: seq<Service>)
  {
    && (forall k :: 0 <= k < |p| ==> ServiceServed(p[k]))
    && (forall i, k :: 0 <= i < k < |p| ==> p[i].endh < p[k].h)
    && (forall k :: 0 <= k < |p| ==> (p[k].endh == 0xFFFF <==> k == |p| - 1))
  }

  lemma {:induction false} CharsSizeGrows(cs: seq<Characteristic>, i: nat, j: nat)
    requires i <= j <= |cs|
    ensures CharsSize(cs, i) <= CharsSize(cs, j)
    ensures i < j ==> CharsSize(cs, i) + CharSize(cs[i]) <= CharsSize(cs, j)
  {
    if i < j {
      CharsSizeGrows(cs, i, j - 1);
    }
  }

  lemma PlacedCharLaid(c: Characteristic, h: nat)
    requires CharOk(c)
    ensures CharLaid(PlaceChar(c, h)) && CharOk(PlaceChar(c, h))
    ensures PlaceChar(c, h).h == h && LastOf(PlaceChar(c, h)) == h + CharSize(c) - 1
  {
    var p := PlaceChar(c, h);
    forall i | 0 <= i < |c.descs|
      ensures p.descs[i].h == h + 2 + i && DescOk(p.descs[i])
    {
      PlaceDescsAt(c.descs, |c.descs|, h + 2, i);
      assert DescOk(c.descs[i]);
    }
  }

  lemma PlacedServiceLaid(s: Service, h: nat, endh: nat)
    requires ServiceOk(s) && h + ServiceSize(s) - 1 <= Min(endh, 0xFFFE)
    ensures ServiceLaid(PlaceService(s, h, endh)) && ServiceOk(PlaceService(s, h, endh))
  {
    hide CharLaid, CharOk, LastOf, PlaceChar, CharsSize, CharSize;
    var p := PlaceService(s, h, endh);
    forall j | 0 <= j < |s.chars|
      ensures p.chars[j] == PlaceChar(s.chars[j], h + 1 + CharsSize(s.chars, j))
      ensures CharLaid(p.chars[j]) && CharOk(p.chars[j]) && h < p.chars[j].h && LastOf(p.chars[j]) <= Min(endh, 0xFFFE)
    {
      PlaceCharsAt(s.chars, |s.chars|, h + 1, j);
      PlacedCharLaid(s.chars[j], h + 1 + CharsSize(s.chars, j));
      CharsSizeGrows(s.chars, j, |s.chars|);
    }
    forall i, j | 0 <= i < j < |s.chars|
      ensures LastOf(p.chars[i]) < p.chars[j].h
    {
      PlacedCharLaid(s.chars[i], h + 1 + CharsSize(s.chars, i));
      PlacedCharLaid(s.chars[j], h + 1 + CharsSize(s.chars, j));
      CharsSizeGrows(s.chars, i, j);
    }
  }

  /** Generation lays every publishable database out in order. */
  lemma PlacedIsServed(ss: seq<Service>)
    requires Publishable(ss)
    ensures Served(Place(ss, 1))
  {
    var p := Place(ss, 1);
    forall k | 0 <= k < |ss|
      ensures ServiceServed(p[k])
      ensures p[k].endh == 0xFFFF <==> k == |ss| - 1
    {
      PlaceAt(ss, 1, k);
      TableSizeGrows(ss, k + 1, |ss|);
      assert TableSize(ss, k + 1) == TableSize(ss, k) + ServiceSize(ss[k]);
      PlacedServiceLaid(ss[k], StartOf(ss, k, 1), EndOf(ss, k, 1));
    }
    forall i, k | 0 <= i < k < |ss| ensures p[i].endh < p[k].h {
      ServiceBefore(ss, 1, i, k);
    }
  }

  // ----------------------------------------------------- selecting by range

  function Selected(q: Query, aa: seq<Attr>, start: nat, end: nat): seq<bytes>
  {
    Select(q, Scan(aa, start, end))
  }

  lemma {:induction false} SelectConcat(q: Query, a: seq<Attr>, b: seq<Attr>)
    ensures Select(q, a + b) == Select(q, a) + Select(q, b)
  {
    if a == [] {
      assert a + b == b;
    } else {
      assert (a + b)[0] == a[0] && (a + b)[1..] == a[1..] + b;
      SelectConcat(q, a[1..], b);
    }
  }

  lemma SelectedConcat(q: Query, a: seq<Attr>, b: seq<Attr>, start: nat, end: nat)
    ensures Selected(q, a + b, start, end) == Selected(q, a, start, end) + Selected(q, b, start, end)
  {
    ScanConcat(a, b, start, end);
    SelectConcat(q, Scan(a, start, end), Scan(b, start, end));
  }

  lemma SelectedNil(q: Query, start: nat, end: nat)
    ensures Selected(q, [], start, end) == []
  {}

  lemma SelectedBoth(q: Query, a: seq<Attr>, b: seq<Attr>, start: nat, end: nat, ea: seq<bytes>, eb: seq<bytes>)
    requires Selected(q, a, start, end) == ea && Selected(q, b, start, end) == eb
    ensures Selected(q, a + b, start, end) == ea + eb
  {
    SelectedConcat(q, a, b, start, end);
  }

  lemma SelectedFirst(q: Query, a: seq<Attr>, b: seq<Attr>, start: nat, end: nat, es: seq<bytes>)
    requires Selected(q, a, start, end) == es && Selected(q, b, start, end) == []
    ensures Selected(q, a + b, start, end) == es
  {
    SelectedConcat(q, a, b, start, end);
  }

  lemma SelectedSecond(q: Query, a: seq<Attr>, b: seq<Attr>, start: nat, end: nat, es: seq<bytes>)
    requires Selected(q, a, start, end) == [] && Selected(q, b, start, end) == es
    ensures Selected(q, a + b, start, end) == es
  {
    SelectedConcat(q, a, b, start, end);
  }

  predicate Hit(q: Query, a: Attr, start: nat, end: nat)
  {
    Wanted(q, a) && start <= a.h <= end
  }

  lemma {:induction false} SelectedNone(q: Query, aa: seq<Attr>, start: nat, end: nat)
    requires forall i :: 0 <= i < |aa| ==> !Hit(q, aa[i], start, end)
    ensures Selected(q, aa, start, end) == []
  {
    if aa != [] {
      SelectedNone(q, aa[1..], start, end);
      SelectedOne(q, aa[0], start, end);
      SelectedConcat(q, [aa[0]], aa[1..], start, end);
      assert aa == [aa[0]] + aa[1..];
    }
  }

  lemma SelectedOne(q: Query, a: Attr, start: nat, end: nat)
    ensures Selected(q, [a], start, end) == if Hit(q, a, start, end) then [Entry(q, a)] else []
  {
    assert [a][1..] == [];
    assert Select(q, [a]) == if Wanted(q, a) then [Entry(q, a)] else [];
    assert Scan([a], start, end) == if start <= a.h <= end then [a] else [];
  }

  // ------------------------------------------------------------- row facts

  /** Rows of characteristics: never a service, and inside the handles `lo..hi`. */
  predicate CharRow(a: Attr, lo: nat, hi: nat)
  {
    TypedAttr(a) && a.typ != PRIMARY_SERVICE && lo <= a.h <= hi && DeclarationRow(a)
  }

  /** A characteristic's declaration: properties, value handle and UUID. */
  predicate DeclarationRow(a: Attr)
  {
    a.typ == CHARACTERISTIC ==> a.value.Some? && (|a.value.value| == 5 || |a.value.value| == 19)
  }

  lemma {:induction false} DescRows(c: Characteristic, i: nat)
    requires CharOk(c) && CharLaid(c) && i <= |c.descs|
    ensures forall x :: 0 <= x < i ==>
      DescAttrs(c.descs, i, c.vh)[x] == DescAttr(c.descs[x], c.vh) && DescOk(c.descs[x])
  {
    if i > 0 {
      DescRows(c, i - 1);
    }
  }

  lemma CharRows(c: Characteristic)
    requires CharOk(c) && CharLaid(c)
    ensures forall x :: 0 <= x < |CharAttrs(c)| ==> CharRow(CharAttrs(c)[x], c.h, LastOf(c))
    ensures forall x :: 1 <= x < |CharAttrs(c)| ==> CharAttrs(c)[x].typ != CHARACTERISTIC
  {
    DescRows(c, |c.descs|);
  }

  lemma {:induction false} CharsRows(s: Service, j: nat)
    requires ServiceServed(s) && j <= |s.chars|
    ensures forall x :: 0 <= x < |CharsAttrs(s.chars, j)| ==> CharRow(CharsAttrs(s.chars, j)[x], s.h + 1, s.endh)
  {
    if j > 0 {
      CharsRows(s, j - 1);
      CharRows(s.chars[j - 1]);
    }
  }

  lemma ServiceRows(s: Service)
    requires ServiceServed(s)
    ensures forall x :: 0 <= x < |ServiceAttrs(s)| ==> ServiceRow(ServiceAttrs(s)[x], s.h, s.endh)
  {
    CharsRows(s, |s.chars|);
  }

  predicate ServiceRow(a: Attr, lo: nat, hi: nat)
  {
    TypedAttr(a) && lo <= a.h <= hi && DeclarationRow(a)
  }

  lemma {:induction false} TableRows(p: seq<Service>, k: nat)
    requires Served(p) && k <= |p|
    ensures forall x :: 0 <= x < |TableAttrs(p, k)| ==> ServiceRow(TableAttrs(p, k)[x], 1, 0xFFFF)
  {
    if k > 0 {
      TableRows(p, k - 1);
      ServiceRows(p[k - 1]);
    }
  }

  // --------------------------------------------------------- service lists

  function GroupEntry(s: Service): (e: bytes)
    ensures |e| == 4 + |s.uuid|
  {
    Le16(s.h) + Le16(s.endh) + s.uuid
  }

  /** `start` separates the first `k` services from the others. */
  ghost predicate Between(p: seq<Service>, k: nat, start: nat)
    requires k <= |p|
  {
    && (forall i :: 0 <= i < k ==> p[i].endh < start)
    && (forall i :: k <= i < |p| ==> start <= p[i].h)
  }

  /** The entries of services `k` up to `t`. */
  function GroupEntries(p: seq<Service>, k: nat, t: nat): (es: seq<bytes>)
    requires t <= |p|
    ensures |es| == if k <= t then t - k else 0
  {
    if t <= k then [] else GroupEntries(p, k, t - 1) + [GroupEntry(p[t - 1])]
  }

  lemma {:induction false} GroupEntriesAt(p: seq<Service>, k: nat, t: nat, i: nat)
    requires k + i < t <= |p|
    ensures GroupEntries(p, k, t)[i] == GroupEntry(p[k + i])
  {
    if k + i < t - 1 {
      GroupEntriesAt(p, k, t - 1, i);
    }
  }

  lemma {:induction false} GroupsBefore(p: seq<Service>, t: nat, k: nat, start: nat)
    requires Served(p) && t <= k <= |p| && Between(p, k, start)
    ensures Selected(Groups, TableAttrs(p, t), start, 0xFFFF) == []
  {
    hide Selected, ServiceAttrs;
    if t > 0 {
      GroupsBefore(p, t - 1, k, start);
      ServiceGroup(p[t - 1], start);
      SelectedSecond(Groups, TableAttrs(p, t - 1), ServiceAttrs(p[t - 1]), start, 0xFFFF, []);
    } else {
      SelectedNil(Groups, start, 0xFFFF);
    }
  }

  lemma {:induction false} GroupsSelected(p: seq<Service>, t: nat, k: nat, start: nat)
    requires Served(p) && k <= t <= |p| && Between(p, k, start)
    ensures Selected(Groups, TableAttrs(p, t), start, 0xFFFF) == GroupEntries(p, k, t)
  {
    hide Selected, ServiceAttrs;
    if t == k {
      GroupsBefore(p, t, k, start);
    } else {
      GroupsSelected(p, t - 1, k, start);
      ServiceGroup(p[t - 1], start);
      SelectedBoth(Groups, TableAttrs(p, t - 1), ServiceAttrs(p[t - 1]), start, 0xFFFF,
                   GroupEntries(p, k, t - 1), [GroupEntry(p[t - 1])]);
    }
  }

  lemma ServiceGroup(s: Service, start: nat)
    requires ServiceServed(s) && (start <= s.h || s.endh < start)
    ensures Selected(Groups, ServiceAttrs(s), start, 0xFFFF) == if start <= s.h then [GroupEntry(s)] else []
  {
    CharsRows(s, |s.chars|);
    var rows := CharsAttrs(s.chars, |s.chars|);
    SelectedNone(Groups, rows, start, 0xFFFF);
    SelectedOne(Groups, ServiceAttr(s), start, 0xFFFF);
    SelectedConcat(Groups, [ServiceAttr(s)], rows, start, 0xFFFF);
  }

  // ------------------------------------------------- requests in one service

  /** A service out of range adds nothing. */
  lemma SkipService(q: Query, aa: seq<Attr>, s: Service, start: nat, end: nat, es: seq<bytes>)
    requires ServiceServed(s) && (s.endh < start || end < s.h)
    requires Selected(q, aa, start, end) == es
    ensures Selected(q, aa + ServiceAttrs(s), start, end) == es
  {
    ServiceRows(s);
    SelectedNone(q, ServiceAttrs(s), start, end);
    SelectedFirst(q, aa, ServiceAttrs(s), start, end, es);
  }

  /** Nothing before service `k` is in range. */
  lemma {:induction false} BeforeService(q: Query, p: seq<Service>, t: nat, k: nat, start: nat, end: nat)
    requires Served(p) && t <= k < |p| && p[k].h <= start
    ensures Selected(q, TableAttrs(p, t), start, end) == []
  {
    hide Selected, ServiceAttrs;
    if t > 0 {
      BeforeService(q, p, t - 1, k, start, end);
      SkipService(q, TableAttrs(p, t - 1), p[t - 1], start, end, []);
    } else {
      SelectedNil(q, start, end);
    }
  }

  /** A range inside service `k` selects from that service alone. */
  lemma {:induction false} WithinService(q: Query, p: seq<Service>, t: nat, k: nat, start: nat, end: nat,
                                         es: seq<bytes>)
    requires Served(p) && k < t <= |p| && p[k].h <= start && end <= p[k].endh
    requires Selected(q, ServiceAttrs(p[k]), start, end) == es
    ensures Selected(q, TableAttrs(p, t), start, end) == es
  {
    hide Selected, ServiceAttrs;
    if t == k + 1 {
      BeforeService(q, p, k, k, start, end);
      SelectedSecond(q, TableAttrs(p, k), ServiceAttrs(p[k]), start, end, es);
    } else {
      WithinService(q, p, t - 1, k, start, end, es);
      SkipService(q, TableAttrs(p, t - 1), p[t - 1], start, end, es);
    }
  }

  // -------------------------------------------------- characteristic lists

  function CharEntry(c: Characteristic): (e: bytes)
    ensures |e| == 5 + |c.uuid|
  {
    Le16(c.h) + ([Low(c.props), Low(c.vh), High(c.vh)] + c.uuid)
  }

  /** The entries of characteristics `j` up to `t`. */
  function CharEntries(cs: seq<Characteristic>, j: nat, t: nat): (es: seq<bytes>)
    requires t <= |cs|
    ensures |es| == if j <= t then t - j else 0
  {
    if t <= j then [] else CharEntries(cs, j, t - 1) + [CharEntry(cs[t - 1])]
  }

  lemma {:induction false} CharEntriesAt(cs: seq<Characteristic>, j: nat, t: nat, i: nat)
    requires j + i < t <= |cs|
    ensures CharEntries(cs, j, t)[i] == CharEntry(cs[j + i])
  {
    if j + i < t - 1 {
      CharEntriesAt(cs, j, t - 1, i);
    }
  }

  /** `start` separates the first `j` declarations from the others. */
  ghost predicate BetweenChars(cs: seq<Characteristic>, j: nat, start: nat)
    requires j <= |cs|
  {
    && (forall i :: 0 <= i < j ==> cs[i].h < start)
    && (forall i :: j <= i < |cs| ==> start <= cs[i].h)
  }

  lemma CharSelected(q: Query, c: Characteristic, start: nat, end: nat)
    requires q.Types? && q.t == CHARACTERISTIC && CharOk(c) && CharLaid(c) && c.h <= end
    ensures Selected(q, CharAttrs(c), start, end) == if start <= c.h then [CharEntry(c)] else []
  {
    CharRows(c);
    var rest := CharAttrs(c)[1..];
    assert CharAttrs(c) == [CharAttr(c)] + rest;
    forall x | 0 <= x < |rest| ensures !Hit(q, rest[x], start, end) {
      assert rest[x] == CharAttrs(c)[x + 1];
    }
    SelectedNone(q, rest, start, end);
    SelectedOne(q, CharAttr(c), start, end);
    SelectedFirst(q, [CharAttr(c)], rest, start, end, if start <= c.h then [CharEntry(c)] else []);
  }

  lemma {:induction false} CharsBefore(q: Query, s: Service, t: nat, j: nat, start: nat)
    requires q.Types? && q.t == CHARACTERISTIC && ServiceServed(s)
    requires t <= j <= |s.chars| && BetweenChars(s.chars, j, start)
    ensures Selected(q, CharsAttrs(s.chars, t), start, s.endh) == []
  {
    hide Selected, CharAttrs;
    if t > 0 {
      CharsBefore(q, s, t - 1, j, start);
      CharSelected(q, s.chars[t - 1], start, s.endh);
      SelectedSecond(q, CharsAttrs(s.chars, t - 1), CharAttrs(s.chars[t - 1]), start, s.endh, []);
    } else {
      SelectedNil(q, start, s.endh);
    }
  }

  lemma {:induction false} CharsSelected(q: Query, s: Service, t: nat, j: nat, start: nat)
    requires q.Types? && q.t == CHARACTERISTIC && ServiceServed(s)
    requires j <= t <= |s.chars| && BetweenChars(s.chars, j, start)
    ensures Selected(q, CharsAttrs(s.chars, t), start, s.endh) == CharEntries(s.chars, j, t)
  {
    hide Selected, CharAttrs;
    if t == j {
      CharsBefore(q, s, t, j, start);
    } else {
      CharsSelected(q, s, t - 1, j, start);
      CharSelected(q, s.chars[t - 1], start, s.endh);
      SelectedBoth(q, CharsAttrs(s.chars, t - 1), CharAttrs(s.chars[t - 1]), start, s.endh,
                   CharEntries(s.chars, j, t - 1), [CharEntry(s.chars[t - 1])]);
    }
  }

  /** What a Read By Type request for declarations finds inside service `k`. */
  lemma DeclarationsSelected(q: Query, p: seq<Service>, k: nat, j: nat, start: nat)
    requires q.Types? && q.t == CHARACTERISTIC && Served(p) && k < |p| && p[k].h <= start
    requires j <= |p[k].chars| && BetweenChars(p[k].chars, j, start)
    ensures Selected(q, TableAttrs(p, |p|), start, p[k].endh) == CharEntries(p[k].chars, j, |p[k].chars|)
  {
    hide Selected, CharsAttrs, CharEntries, TableAttrs;
    var s := p[k];
    CharsSelected(q, s, |s.chars|, j, start);
    SelectedOne(q, ServiceAttr(s), start, s.endh);
    SelectedSecond(q, [ServiceAttr(s)], CharsAttrs(s.chars, |s.chars|), start, s.endh,
                 CharEntries(s.chars, j, |s.chars|));
    WithinService(q, p, |p|, k, start, s.endh, CharEntries(s.chars, j, |s.chars|));
  }

  // ------------------------------------------------------ descriptor lists

  function DescEntry(d: Descriptor): (e: bytes)
    ensures |e| == 2 + |d.uuid|
  {
    Le16(d.h) + d.uuid
  }

  /** The entries of descriptors `i` up to `t`. */
  function DescEntries(ds: seq<Descriptor>, i: nat, t: nat): (es: seq<bytes>)
    requires t <= |ds|
    ensures |es| == if i <= t then t - i else 0
  {
    if t <= i then [] else DescEntries(ds, i, t - 1) + [DescEntry(ds[t - 1])]
  }

  lemma {:induction false} DescEntriesAt(ds: seq<Descriptor>, i: nat, t: nat, x: nat)
    requires i + x < t <= |ds|
    ensures DescEntries(ds, i, t)[x] == DescEntry(ds[i + x])
  {
    if i + x < t - 1 {
      DescEntriesAt(ds, i, t - 1, x);
    }
  }

  lemma {:induction false} DescsSelected(c: Characteristic, t: nat, i: nat, end: nat)
    requires CharOk(c) && CharLaid(c) && t <= |c.descs| && i <= |c.descs| && LastOf(c) <= end
    ensures Selected(Info, DescAttrs(c.descs, t, c.vh), c.h + 2 + i, end) == DescEntries(c.descs, i, t)
  {
    hide Selected;
    if t > 0 {
      var d, start := c.descs[t - 1], c.h + 2 + i;
      DescsSelected(c, t - 1, i, end);
      assert DescOk(d) && d.h == c.h + 2 + (t - 1);
      SelectedOne(Info, DescAttr(d, c.vh), start, end);
      SelectedBoth(Info, DescAttrs(c.descs, t - 1, c.vh), [DescAttr(d, c.vh)], start, end,
                   DescEntries(c.descs, i, t - 1), if start <= d.h then [DescEntry(d)] else []);
    } else {
      SelectedNil(Info, c.h + 2 + i, end);
    }
  }

  /** Where characteristic `j` of `s` ends. */
  ghost function CharEnd(s: Service, j: nat): (r: nat)
    requires ServiceServed(s) && j < |s.chars|
    ensures LastOf(s.chars[j]) <= r <= s.endh
    ensures forall i :: j < i < |s.chars| ==> r < s.chars[i].h
  {
    if j + 1 < |s.chars| then s.chars[j + 1].h - 1 else s.endh
  }

  /** A characteristic out of range adds nothing. */
  lemma SkipChar(aa: seq<Attr>, c: Characteristic, start: nat, end: nat, es: seq<bytes>)
    requires CharOk(c) && CharLaid(c) && (LastOf(c) < start || end < c.h)
    requires Selected(Info, aa, start, end) == es
    ensures Selected(Info, aa + CharAttrs(c), start, end) == es
  {
    CharRows(c);
    SelectedNone(Info, CharAttrs(c), start, end);
    SelectedFirst(Info, aa, CharAttrs(c), start, end, es);
  }

  lemma {:induction false} BeforeChar(s: Service, t: nat, j: nat, start: nat, end: nat)
    requires ServiceServed(s) && t <= j < |s.chars| && s.chars[j].h <= start
    ensures Selected(Info, CharsAttrs(s.chars, t), start, end) == []
  {
    hide Selected, CharAttrs;
    if t > 0 {
      BeforeChar(s, t - 1, j, start, end);
      SkipChar(CharsAttrs(s.chars, t - 1), s.chars[t - 1], start, end, []);
    } else {
      SelectedNil(Info, start, end);
    }
  }

  /** A range that ends before the next characteristic selects from this one alone. */
  lemma {:induction false} WithinChar(s: Service, t: nat, j: nat, start: nat, end: nat, es: seq<bytes>)
    requires ServiceServed(s) && j < t <= |s.chars| && s.chars[j].h <= start
    requires forall i :: j < i < |s.chars| ==> end < s.chars[i].h
    requires Selected(Info, CharAttrs(s.chars[j]), start, end) == es
    ensures Selected(Info, CharsAttrs(s.chars, t), start, end) == es
  {
    hide Selected, CharAttrs;
    if t == j + 1 {
      BeforeChar(s, j, j, start, end);
      SelectedSecond(Info, CharsAttrs(s.chars, j), CharAttrs(s.chars[j]), start, end, es);
    } else {
      WithinChar(s, t - 1, j, start, end, es);
      SkipChar(CharsAttrs(s.chars, t - 1), s.chars[t - 1], start, end, es);
    }
  }

  lemma CharDescriptors(c: Characteristic, i: nat, end: nat)
    requires CharOk(c) && CharLaid(c) && i <= |c.descs| && LastOf(c) <= end
    ensures Selected(Info, CharAttrs(c), c.h + 2 + i, end) == DescEntries(c.descs, i, |c.descs|)
  {
    hide Selected, DescAttrs;
    var start, es := c.h + 2 + i, DescEntries(c.descs, i, |c.descs|);
    DescsSelected(c, |c.descs|, i, end);
    SelectedNone(Info, [CharAttr(c), ValueAttr(c)], start, end);
    SelectedSecond(Info, [CharAttr(c), ValueAttr(c)], DescAttrs(c.descs, |c.descs|, c.vh), start, end, es);
  }

  lemma ServiceDescriptors(s: Service, j: nat, i: nat)
    requires ServiceServed(s) && j < |s.chars| && i <= |s.chars[j].descs|
    ensures var c := s.chars[j];
      Selected(Info, ServiceAttrs(s), c.h + 2 + i, CharEnd(s, j)) == DescEntries(c.descs, i, |c.descs|)
  {
    hide Selected, CharsAttrs, CharAttrs, DescEntries;
    var c, start, end := s.chars[j], s.chars[j].h + 2 + i, CharEnd(s, j);
    var es := DescEntries(c.descs, i, |c.descs|);
    CharDescriptors(c, i, end);
    WithinChar(s, |s.chars|, j, start, end, es);
    SelectedOne(Info, ServiceAttr(s), start, end);
    SelectedSecond(Info, [ServiceAttr(s)], CharsAttrs(s.chars, |s.chars|), start, end, es);
  }

  /** What a Find Information request finds from descriptor `i` of a characteristic on. */
  lemma DescriptorsSelected(p: seq<Service>, k: nat, j: nat, i: nat)
    requires Served(p) && k < |p| && ServiceServed(p[k])
    requires j < |p[k].chars| && i <= |p[k].chars[j].descs|
    ensures var c := p[k].chars[j];
      Selected(Info, TableAttrs(p, |p|), c.h + 2 + i, CharEnd(p[k], j)) == DescEntries(c.descs, i, |c.descs|)
  {
    hide Selected, ServiceAttrs, DescEntries, TableAttrs;
    var c := p[k].chars[j];
    ServiceDescriptors(p[k], j, i);
    WithinService(Info, p, |p|, k, c.h + 2 + i, CharEnd(p[k], j), DescEntries(c.descs, i, |c.descs|));
  }

  // ------------------------------------------------------- reading replies

  /** A request with matches is answered with the header and a non-empty run of
      entries of one size. */
  lemma EntriesOf(q: Query, aa: seq<Attr>, start: nat, mtu: nat, es: seq<bytes>, n: nat) returns (got: seq<bytes>)
    requires mtu >= DEFAULT_MTU && !q.ServicesWith? && Select(q, aa) == es
    requires es != [] && 0 < n == |es[0]| <= 21
    ensures ListReply(q, aa, start, mtu) == Header(q, n) + Flatten(got)
    ensures got != [] && got <= es && |Flatten(got)| == n * |got| && LongestPrefix(got, es, n, mtu - 2)
    ensures forall i :: 0 <= i < |got| ==> |got[i]| == n
  {
    hide Select, Flatten, Wanted, Entry;
    got := Fit(es, n, mtu - 2);
    FitIsLongest(es, n, mtu - 2);
    FlattenFit(es, n, mtu - 2);
  }

  lemma NoEntries(q: Query, aa: seq<Attr>, start: nat, mtu: nat)
    requires mtu >= DEFAULT_MTU && Select(q, aa) == []
    ensures ListReply(q, aa, start, mtu) == ErrorResp(ListOp(q), start, ATTR_NOT_FOUND)
  {}

  function GroupBytes(ss: seq<Service>): bytes
  {
    if ss == [] then [] else GroupEntry(ss[0]) + GroupBytes(ss[1..])
  }

  function CharBytes(cs: seq<Characteristic>): bytes
  {
    if cs == [] then [] else CharEntry(cs[0]) + CharBytes(cs[1..])
  }

  function DescBytes(ds: seq<Descriptor>): bytes
  {
    if ds == [] then [] else DescEntry(ds[0]) + DescBytes(ds[1..])
  }

  lemma {:induction false} FlattenGroups(got: seq<bytes>, ss: seq<Service>)
    requires |got| == |ss| && forall i :: 0 <= i < |ss| ==> got[i] == GroupEntry(ss[i])
    ensures Flatten(got) == GroupBytes(ss)
  {
    if got != [] {
      FlattenGroups(got[1..], ss[1..]);
    }
  }

  lemma {:induction false} FlattenChars(got: seq<bytes>, cs: seq<Characteristic>)
    requires |got| == |cs| && forall i :: 0 <= i < |cs| ==> got[i] == CharEntry(cs[i])
    ensures Flatten(got) == CharBytes(cs)
  {
    if got != [] {
      FlattenChars(got[1..], cs[1..]);
    }
  }

  lemma {:induction false} FlattenDescs(got: seq<bytes>, ds: seq<Descriptor>)
    requires |got| == |ds| && forall i :: 0 <= i < |ds| ==> got[i] == DescEntry(ds[i])
    ensures Flatten(got) == DescBytes(ds)
  {
    if got != [] {
      FlattenDescs(got[1..], ds[1..]);
    }
  }

  /** A run of service entries of size `n` from `k` on, as bytes. */
  lemma GroupRun(p: seq<Service>, k: nat, got: seq<bytes>, n: nat, ss: seq<Service>)
    requires k <= |p| && got <= GroupEntries(p, k, |p|) && ss == p[k..k + |got|]
    requires forall i :: 0 <= i < |got| ==> |got[i]| == n
    ensures Flatten(got) == GroupBytes(ss)
    ensures forall i :: 0 <= i < |ss| ==> |GroupEntry(ss[i])| == n
  {
    forall i | 0 <= i < |got| ensures got[i] == GroupEntry(ss[i]) && |GroupEntry(ss[i])| == n {
      GroupEntriesAt(p, k, |p|, i);
      assert |got[i]| == n;
    }
    FlattenGroups(got, ss);
  }

  /** The reply that lists services from `k` on: `m` of them, all of one size `n`. */
  lemma GroupsReply(p: seq<Service>, k: nat, start: nat, mtu: nat) returns (m: nat, n: nat)
    requires mtu >= DEFAULT_MTU && Served(p) && k < |p| && Between(p, k, start)
    ensures 0 < m <= |p| - k && (n == 6 || n == 20)
    ensures var ss := p[k..k + m];
      && (forall i :: 0 <= i < |ss| ==> |GroupEntry(ss[i])| == n) && |GroupBytes(ss)| == n * m
      && ListReply(Groups, Scan(TableAttrs(p, |p|), start, 0xFFFF), start, mtu) == Header(Groups, n) + GroupBytes(ss)
  {
    hide GroupBytes, TableAttrs, Scan, Select, Flatten, GroupEntries, ListReply;
    n := |GroupEntry(p[k])|;
    assert ServiceServed(p[k]);
    GroupsSelected(p, |p|, k, start);
    GroupEntriesAt(p, k, |p|, 0);
    var got := EntriesOf(Groups, Scan(TableAttrs(p, |p|), start, 0xFFFF), start, mtu, GroupEntries(p, k, |p|), n);
    m := |got|;
    GroupRun(p, k, got, n, p[k..k + m]);
  }

  lemma CharRun(cs: seq<Characteristic>, j: nat, got: seq<bytes>, n: nat, mine: seq<Characteristic>)
    requires j <= |cs| && got <= CharEntries(cs, j, |cs|) && mine == cs[j..j + |got|]
    requires forall i :: 0 <= i < |got| ==> |got[i]| == n
    ensures Flatten(got) == CharBytes(mine)
    ensures forall i :: 0 <= i < |mine| ==> |CharEntry(mine[i])| == n
  {
    forall i | 0 <= i < |got| ensures got[i] == CharEntry(mine[i]) && |CharEntry(mine[i])| == n {
      CharEntriesAt(cs, j, |cs|, i);
      assert |got[i]| == n;
    }
    FlattenChars(got, mine);
  }

  /** The reply that lists the characteristics of service `k` from `j` on. */
  lemma CharsReply(q: Query, p: seq<Service>, k: nat, j: nat, start: nat, mtu: nat) returns (m: nat, n: nat)
    requires mtu >= DEFAULT_MTU && Served(p) && k < |p| && p[k].h <= start
    requires q.Types? && q.t == CHARACTERISTIC && j < |p[k].chars| && BetweenChars(p[k].chars, j, start)
    ensures 0 < m <= |p[k].chars| - j && (n == 7 || n == 21)
    ensures var cs := p[k].chars[j..j + m];
      && (forall i :: 0 <= i < |cs| ==> |CharEntry(cs[i])| == n) && |CharBytes(cs)| == n * m
      && ListReply(q, Scan(TableAttrs(p, |p|), start, p[k].endh), start, mtu) == Header(q, n) + CharBytes(cs)
  {
    hide CharBytes, TableAttrs, Scan, Select, Flatten, CharEntries, ListReply;
    var s := p[k];
    assert ServiceServed(s) && CharOk(s.chars[j]);
    n := |CharEntry(s.chars[j])|;
    DeclarationsSelected(q, p, k, j, start);
    CharEntriesAt(s.chars, j, |s.chars|, 0);
    var got := EntriesOf(q, Scan(TableAttrs(p, |p|), start, s.endh), start, mtu, CharEntries(s.chars, j, |s.chars|), n);
    m := |got|;
    CharRun(s.chars, j, got, n, s.chars[j..j + m]);
  }

  lemma {:induction false} DeclarationSizes(q: Query, aa: seq<Attr>)
    requires q.Types? && q.t == CHARACTERISTIC && forall a :: a in aa ==> DeclarationRow(a)
    ensures forall i :: 0 <= i < |Select(q, aa)| ==> |Select(q, aa)[i]| == 7 || |Select(q, aa)[i]| == 21
  {
    if aa != [] {
      assert DeclarationRow(aa[0]);
      DeclarationSizes(q, aa[1..]);
    }
  }

  /** Whatever range it asks for, a declarations request with matches in it gets a non-empty
      list, the longest one that fits: even the longest entry just does. */
  lemma DeclarationListsAreNonEmpty(q: Query, p: seq<Service>, start: nat, end: nat, mtu: nat)
      returns (got: seq<bytes>, n: nat)
    requires mtu >= DEFAULT_MTU && Served(p) && q.Types? && q.t == CHARACTERISTIC
    requires Select(q, Scan(TableAttrs(p, |p|), start, end)) != []
    ensures got != [] && (n == 7 || n == 21)
    ensures var aa := Scan(TableAttrs(p, |p|), start, end);
      ListReply(q, aa, start, mtu) == Header(q, n) + Flatten(got) && LongestPrefix(got, Select(q, aa), n, mtu - 2)
  {
    hide TableAttrs, Scan, Select, Flatten, ListReply, Served, LongestPrefix;
    var table := TableAttrs(p, |p|);
    var aa := Scan(table, start, end);
    TableRows(p, |p|);
    ScanKeeps(table, start, end);
    forall a | a in aa ensures DeclarationRow(a) {
      var x :| 0 <= x < |table| && table[x] == a;
      assert ServiceRow(table[x], 1, 0xFFFF);
    }
    DeclarationSizes(q, aa);
    n := |Select(q, aa)[0]|;
    got := EntriesOf(q, aa, start, mtu, Select(q, aa), n);
  }

  lemma DescRun(ds: seq<Descriptor>, i: nat, got: seq<bytes>, n: nat, mine: seq<Descriptor>)
    requires i <= |ds| && got <= DescEntries(ds, i, |ds|) && mine == ds[i..i + |got|]
    requires forall x :: 0 <= x < |got| ==> |got[x]| == n
    ensures Flatten(got) == DescBytes(mine)
    ensures forall x :: 0 <= x < |mine| ==> |DescEntry(mine[x])| == n
  {
    forall x | 0 <= x < |got| ensures got[x] == DescEntry(mine[x]) && |DescEntry(mine[x])| == n {
      DescEntriesAt(ds, i, |ds|, x);
      assert |got[x]| == n;
    }
    FlattenDescs(got, mine);
  }

  /** The reply that lists the descriptors of a characteristic from `i` on. */
  lemma DescsReply(aa: seq<Attr>, c: Characteristic, i: nat, end: nat, mtu: nat) returns (m: nat, n: nat)
    requires mtu >= DEFAULT_MTU && CharOk(c) && i < |c.descs|
    requires Selected(Info, aa, c.h + 2 + i, end) == DescEntries(c.descs, i, |c.descs|)
    ensures 0 < m <= |c.descs| - i && (n == 4 || n == 18)
    ensures var ds, start := c.descs[i..i + m], c.h + 2 + i;
      && (forall x :: 0 <= x < |ds| ==> |DescEntry(ds[x])| == n) && |DescBytes(ds)| == n * m
      && ListReply(Info, Scan(aa, start, end), start, mtu) == Header(Info, n) + DescBytes(ds)
  {
    hide DescBytes, Scan, Select, Flatten, DescEntries, ListReply;
    var start, es := c.h + 2 + i, DescEntries(c.descs, i, |c.descs|);
    assert DescOk(c.descs[i]);
    n := |DescEntry(c.descs[i])|;
    DescEntriesAt(c.descs, i, |c.descs|, 0);
    var got := EntriesOf(Info, Scan(aa, start, end), start, mtu, es, n);
    m := |got|;
    DescRun(c.descs, i, got, n, c.descs[i..i + m]);
  }

  /** How the client takes one service entry off a reply. */
  lemma ParseGroup(s: Service, rest: bytes)
    requires IsUuid(s.uuid) && s.h <= 0xFFFF && s.endh <= 0xFFFF
    ensures var b, n := GroupEntry(s) + rest, |GroupEntry(s)|;
      Word(b[..2]) == s.h && Word(b[2..4]) == s.endh && b[4..n] == s.uuid && b[n..] == rest
  {
    WordOfLe16(s.h);
    WordOfLe16(s.endh);
    var b := GroupEntry(s) + rest;
    assert b[..2] == Le16(s.h) && b[2..4] == Le16(s.endh);
  }

  lemma ParseChar(c: Characteristic, rest: bytes)
    requires IsUuid(c.uuid) && c.h <= 0xFFFF && c.vh <= 0xFFFF
    ensures var b, n := CharEntry(c) + rest, |CharEntry(c)|;
      && Word(b[..2]) == c.h && b[2] == Low(c.props) && Word(b[3..5]) == c.vh
      && b[5..n] == c.uuid && b[n..] == rest
  {
    WordOfLe16(c.h);
    WordOfLe16(c.vh);
    var b := CharEntry(c) + rest;
    assert b[..2] == Le16(c.h) && b[3..5] == Le16(c.vh);
  }

  lemma ParseDesc(d: Descriptor, rest: bytes)
    requires IsUuid(d.uuid) && d.h <= 0xFFFF
    ensures var b, n := DescEntry(d) + rest, |DescEntry(d)|;
      Word(b[..2]) == d.h && b[2..n] == d.uuid && b[n..] == rest
  {
    WordOfLe16(d.h);
    var b := DescEntry(d) + rest;
    assert b[..2] == Le16(d.h);
  }

  // ------------------------------------------------- serving the database

  /** The table of a publishable database is one a connection can serve. */
  lemma PublishedTableServes(db: seq<Service>)
    requires Publishable(db)
    ensures var aa := TableAttrs(Place(db, 1), |db|);
      Indexed(aa, 1) && Typed(aa)
  {
    hide Place, TableAttrs, Publishable, Served;
    GeneratedIndexed(db, 1);
    PlacedIsServed(db);
    TableRows(Place(db, 1), |db|);
  }

  /** Every value can be read, and written where the properties allow it. */
  predicate Handled(s: Service)
  {
    forall j :: 0 <= j < |s.chars| ==> CharHandled(s.chars[j])
  }

  predicate CharHandled(c: Characteristic)
  {
    && (c.value.Some? || c.hasRead)
    && (Has(c.props, CHAR_WRITE) || Has(c.props, CHAR_WRITE_NR) ==> c.hasWrite)
    && forall i :: 0 <= i < |c.descs| ==> DescHandled(c.descs[i])
  }

  predicate DescHandled(d: Descriptor)
  {
    d.value.Some? || |d.valueStr| > 0 || d.hasRead
  }

  predicate RowHandled(a: Attr)
  {
    && Readable(a)
    && (ReachesWriteHandler(WRITE_REQ, a) || ReachesWriteHandler(WRITE_CMD, a) ==> a.hasWrite)
  }

  lemma {:induction false} DescsHandled(c: Characteristic, i: nat)
    requires CharHandled(c) && i <= |c.descs|
    ensures forall x :: 0 <= x < i ==> RowHandled(DescAttrs(c.descs, i, c.vh)[x])
  {
    if i > 0 {
      DescsHandled(c, i - 1);
      assert DescHandled(c.descs[i - 1]);
    }
  }

  lemma {:induction false} CharsHandled(s: Service, j: nat)
    requires Handled(s) && j <= |s.chars|
    ensures forall x :: 0 <= x < |CharsAttrs(s.chars, j)| ==> RowHandled(CharsAttrs(s.chars, j)[x])
  {
    if j > 0 {
      CharsHandled(s, j - 1);
      assert CharHandled(s.chars[j - 1]);
      DescsHandled(s.chars[j - 1], |s.chars[j - 1].descs|);
    }
  }

  lemma {:induction false} TableHandled(p: seq<Service>, k: nat)
    requires k <= |p| && forall i :: 0 <= i < |p| ==> Handled(p[i])
    ensures forall x :: 0 <= x < |TableAttrs(p, k)| ==> RowHandled(TableAttrs(p, k)[x])
  {
    if k > 0 {
      TableHandled(p, k - 1);
      CharsHandled(p[k - 1], |p[k - 1].chars|);
    }
  }

  lemma PlacedHandled(s: Service, h: nat, endh: nat)
    requires Handled(s)
    ensures Handled(PlaceService(s, h, endh))
  {
    var p := PlaceService(s, h, endh);
    forall j | 0 <= j < |p.chars| ensures CharHandled(p.chars[j]) {
      PlaceCharsAt(s.chars, |s.chars|, h + 1, j);
      var c, at := s.chars[j], h + 1 + CharsSize(s.chars, j);
      assert CharHandled(c);
      forall i | 0 <= i < |c.descs| ensures DescHandled(PlaceChar(c, at).descs[i]) {
        PlaceDescsAt(c.descs, |c.descs|, at + 2, i);
        assert DescHandled(c.descs[i]);
      }
    }
  }

  /** Long enough for its opcode, and a range that starts at most one past its end. */
  predicate WellFormed(req: bytes)
  {
    && LongEnough(req)
    && var op := req[0];
    op in {FIND_INFO_REQ, READ_BY_TYPE_REQ, READ_BY_GROUP_REQ, FIND_BY_TYPE_VALUE_REQ} ==>
      Word(req[1..]) <= Word(req[1..][2..]) + 1
  }

  /** A server of a publishable database with its handlers installed answers every
      well-formed request without a panic. */
  lemma WellFormedIsAnswerable(db: seq<Service>, req: bytes)
    requires Publishable(db) && (forall k :: 0 <= k < |db| ==> Handled(db[k])) && WellFormed(req)
    ensures Answerable(TableAttrs(Place(db, 1), |db|), req)
  {
    var p := Place(db, 1);
    forall k | 0 <= k < |p| ensures Handled(p[k]) {
      PlaceAt(db, 1, k);
      PlacedHandled(db[k], StartOf(db, k, 1), EndOf(db, k, 1));
    }
    TableHandled(p, |p|);
    HandledIsAnswerable(TableAttrs(p, |p|), req);
  }

  lemma HandledIsAnswerable(aa: seq<Attr>, req: bytes)
    requires WellFormed(req) && forall x :: 0 <= x < |aa| ==> RowHandled(aa[x])
    ensures Answerable(aa, req)
  {
    assert forall a :: a in aa ==> RowHandled(a);
  }

  /** In a table that starts at handle 1, a range makes the slice panic exactly when it is
      backwards by more than one and starts inside the table. */
  lemma RangePanicsIff(db: seq<Service>, start: nat, end: nat)
    ensures var aa := TableAttrs(Place(db, 1), |db|);
      && (AttrRange(aa, 1).Subrange(start, end).None? <==> end + 1 < start <= |aa|)
      && (Backwards(aa, start, end) <==> end + 1 < start <= |aa|)
  {
    hide Place, TableAttrs;
    GeneratedIndexed(db, 1);
  }

  const ONE := Characteristic([0x19, 0x2A], 2, None, true, false, [], 0, 0)
  const TWO := Characteristic([0x1A, 0x2A], 2, None, true, false, [], 0, 0)
  const SMALL := [Service([0x0F, 0x18], [ONE, TWO], 0, 0)]

  /** A client can cause it: Find Information from 5 to 2 at a server of two characteristics. */
  lemma BackwardsRequestPanics()
    ensures Publishable(SMALL)
    ensures AttrRange(TableAttrs(Place(SMALL, 1), 1), 1).Subrange(5, 2).None?
    ensures var req := [FIND_INFO_REQ] + Le16(5) + Le16(2);
      !Answerable(TableAttrs(Place(SMALL, 1), 1), req)
  {
    hide Place, TableAttrs;
    SmallSize();
    RangePanicsIff(SMALL, 5, 2);
    GeneratedIndexed(SMALL, 1);
    var req := [FIND_INFO_REQ] + Le16(5) + Le16(2);
    assert req[1..] == Le16(5) + Le16(2) && req[1..][2..] == Le16(2);
  }

  lemma SmallSize()
    ensures Publishable(SMALL) && TableSize(SMALL, |SMALL|) == 5
  {
    var cs := [ONE, TWO];
    assert CharsSize(cs, 1) == CharsSize(cs, 0) + CharSize(ONE) == 2;
    assert CharsSize(cs, 2) == 4;
    assert TableSize(SMALL, 0) == 0 && TableSize(SMALL, 1) == 5;
    assert ONE.uuid[0] != PRIMARY_SERVICE[0] && ONE.uuid[0] != CHARACTERISTIC[0] && ONE.uuid[0] != CLIENT_CONFIG[0];
    assert TWO.uuid[0] != PRIMARY_SERVICE[0] && TWO.uuid[0] != CHARACTERISTIC[0] && TWO.uuid[0] != CLIENT_CONFIG[0];
    assert CharOk(ONE) && CharOk(TWO) && ServiceOk(SMALL[0]);
  }
}
