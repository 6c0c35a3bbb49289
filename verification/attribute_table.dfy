/** The server's attribute table: how services, characteristics and descriptors
    are laid out on handles, and how a handle or a range is looked up. */
module AttributeTable {
  import opened Bytes
  import opened Att

  /** `hasRead` and `hasWrite` say that the user installed a handler. */
  datatype Descriptor = Descriptor(uuid: bytes, props: nat, value: Option<bytes>, valueStr: bytes,
                                   hasRead: bool, h: nat)

  datatype Characteristic = Characteristic(uuid: bytes, props: nat, value: Option<bytes>,
                                           hasRead: bool, hasWrite: bool, descs: seq<Descriptor>,
                                           h: nat, vh: nat)

  datatype Service = Service(uuid: bytes, chars: seq<Characteristic>, h: nat, endh: nat)

  /** What an attribute reaches through its owner: the handles stored there. */
  datatype Owner =
    | OfService(sh: nat, endh: nat)
    | OfChar(ch: nat, vh: nat)
    | OfDesc(dh: nat, cvh: nat)

  datatype Attr = Attr(h: nat, typ: bytes, props: nat, value: Option<bytes>, pvt: Owner,
                       hasRead: bool, hasWrite: bool)

  // ------------------------------------------- rows of a placed database

  function ServiceAttr(s: Service): Attr
  {
    Attr(s.h, PRIMARY_SERVICE, CHAR_READ, Some(s.uuid), OfService(s.h, s.endh), false, false)
  }

  function CharAttr(c: Characteristic): Attr
  {
    Attr(c.h, CHARACTERISTIC, c.props, Some([Low(c.props), Low(c.vh), High(c.vh)] + c.uuid),
         OfChar(c.h, c.vh), c.hasRead, c.hasWrite)
  }

  function ValueAttr(c: Characteristic): Attr
  {
    Attr(c.vh, c.uuid, c.props, c.value, OfChar(c.h, c.vh), c.hasRead, c.hasWrite)
  }

  function DescAttr(d: Descriptor, vh: nat): Attr
  {
    Attr(d.h, d.uuid, d.props, if |d.valueStr| > 0 then Some(d.valueStr) else d.value, OfDesc(d.h, vh),
         d.hasRead, false)
  }

  function DescAttrs(ds: seq<Descriptor>, i: nat, vh: nat): (r: seq<Attr>)
    requires i <= |ds|
    ensures |r| == i
  {
    if i == 0 then [] else DescAttrs(ds, i - 1, vh) + [DescAttr(ds[i - 1], vh)]
  }

  function CharAttrs(c: Characteristic): seq<Attr>
  {
    [CharAttr(c), ValueAttr(c)] + DescAttrs(c.descs, |c.descs|, c.vh)
  }

  function CharsAttrs(cs: seq<Characteristic>, j: nat): seq<Attr>
    requires j <= |cs|
  {
    if j == 0 then [] else CharsAttrs(cs, j - 1) + CharAttrs(cs[j - 1])
  }

  function ServiceAttrs(s: Service): seq<Attr>
  {
    [ServiceAttr(s)] + CharsAttrs(s.chars, |s.chars|)
  }

  /** The attributes of the first `k` services. */
  function TableAttrs(ss: seq<Service>, k: nat): seq<Attr>
    requires k <= |ss|
  {
    if k == 0 then [] else TableAttrs(ss, k - 1) + ServiceAttrs(ss[k - 1])
  }

  // ------------------------------------------------------------- placement

  function CharSize(c: Characteristic): nat { 2 + |c.descs| }

  /** Number of attributes of the first `j` characteristics. */
  function CharsSize(cs: seq<Characteristic>, j: nat): nat
    requires j <= |cs|
  {
    if j == 0 then 0 else CharsSize(cs, j - 1) + CharSize(cs[j - 1])
  }

  function ServiceSize(s: Service): nat { 1 + CharsSize(s.chars, |s.chars|) }

  /** Number of attributes of the first `k` services. */
  function TableSize(ss: seq<Service>, k: nat): nat
    requires k <= |ss|
  {
    if k == 0 then 0 else TableSize(ss, k - 1) + ServiceSize(ss[k - 1])
  }

  function PlaceDescs(ds: seq<Descriptor>, i: nat, h: nat): (r: seq<Descriptor>)
    requires i <= |ds|
    ensures |r| == i
  {
    if i == 0 then [] else PlaceDescs(ds, i - 1, h) + [ds[i - 1].(h := h + i - 1)]
  }

  function PlaceChar(c: Characteristic, h: nat): (r: Characteristic)
    ensures |r.descs| == |c.descs|
  {
    c.(h := h, vh := h + 1, descs := PlaceDescs(c.descs, |c.descs|, h + 2))
  }

  function PlaceChars(cs: seq<Characteristic>, j: nat, h: nat): (r: seq<Characteristic>)
    requires j <= |cs|
    ensures |r| == j
  {
    if j == 0 then [] else PlaceChars(cs, j - 1, h) + [PlaceChar(cs[j - 1], h + CharsSize(cs, j - 1))]
  }

  function PlaceService(s: Service, h: nat, endh: nat): Service
  {
    s.(h := h, endh := endh, chars := PlaceChars(s.chars, |s.chars|, h + 1))
  }

  function StartOf(ss: seq<Service>, k: nat, base: nat): nat
    requires k <= |ss|
  {
    base + TableSize(ss, k)
  }

  function EndOf(ss: seq<Service>, k: nat, base: nat): nat
    requires k < |ss|
  {
    if k == |ss| - 1 then 0xFFFF else StartOf(ss, k + 1, base) - 1
  }

  function PlaceTo(ss: seq<Service>, k: nat, base: nat): (r: seq<Service>)
    requires k <= |ss|
    ensures |r| == k
  {
    if k == 0 then []
    else PlaceTo(ss, k - 1, base) + [PlaceService(ss[k - 1], StartOf(ss, k - 1, base), EndOf(ss, k - 1, base))]
  }

  /** `ss` with every handle assigned, the first service starting at `base`. */
  function Place(ss: seq<Service>, base: nat): (r: seq<Service>)
    ensures |r| == |ss|
  {
    PlaceTo(ss, |ss|, base)
  }

  // ------------------------------------------------------------ generation

  method GenerateDescAttributes(d: Descriptor, h: nat, vh: nat) returns (d': Descriptor, a: Attr)
    ensures d' == d.(h := h) && a == DescAttr(d', vh)
  {
    d' := d.(h := h);
    a := Attr(h, d.uuid, d.props, d.value, OfDesc(h, vh), d.hasRead, false);
    if |d.valueStr| > 0 {
      a := a.(value := Some(d.valueStr));
    }
  }

  method GenerateCharAttributes(c: Characteristic, start: nat) returns (c': Characteristic, h: nat, aa: seq<Attr>)
    ensures c' == PlaceChar(c, start) && h == start + CharSize(c) && aa == CharAttrs(c')
  {
    h := start;
    c' := c.(h := h, vh := h + 1);
    var ca := Attr(c'.h, CHARACTERISTIC, c.props, Some([Low(c.props), Low(c'.vh), High(c'.vh)] + c.uuid),
                   OfChar(c'.h, c'.vh), c.hasRead, c.hasWrite);
    var va := Attr(c'.vh, c.uuid, c.props, c.value, OfChar(c'.h, c'.vh), c.hasRead, c.hasWrite);
    h := h + 2;
    aa := [ca, va];
    var i, placed := 0, [];
    while i < |c.descs|
      invariant 0 <= i <= |c.descs| && h == start + 2 + i
      invariant placed == PlaceDescs(c.descs, i, start + 2)
      invariant aa == [ca, va] + DescAttrs(placed, i, c'.vh)
    {
      var d, a := GenerateDescAttributes(c.descs[i], h, c'.vh);
      DescAttrsPrefix(placed, placed + [d], i, c'.vh);
      placed, aa := placed + [d], aa + [a];
      h := h + 1;
      i := i + 1;
    }
    c' := c'.(descs := placed);
  }

  method GenerateServiceAttributes(s: Service, start: nat, last: bool)
      returns (s': Service, h: nat, aa: seq<Attr>)
    ensures h == if last then 0xFFFF else start + ServiceSize(s)
    ensures s' == PlaceService(s, start, if last then 0xFFFF else h - 1)
    ensures aa == ServiceAttrs(s')
  {
    hide CharAttrs, PlaceChar, CharSize;
    h := start;
    s' := s.(h := h);
    h := h + 1;
    var i, placed, ca := 0, [], [];
    while i < |s.chars|
      invariant 0 <= i <= |s.chars| && h == start + 1 + CharsSize(s.chars, i)
      invariant placed == PlaceChars(s.chars, i, start + 1)
      invariant ca == CharsAttrs(placed, i)
    {
      var c, a;
      c, h, a := GenerateCharAttributes(s.chars[i], h);
      CharsAttrsPrefix(placed, placed + [c], i);
      placed, ca := placed + [c], ca + a;
      assert placed[i] == c && placed[..i] == PlaceChars(s.chars, i, start + 1);
      i := i + 1;
    }
    s' := s'.(chars := placed, endh := h - 1);
    if last {
      h := 0xFFFF;
      s' := s'.(endh := h);
    }
    aa := [Attr(s'.h, PRIMARY_SERVICE, CHAR_READ, Some(s.uuid), OfService(s'.h, s'.endh), false, false)] + ca;
  }

  /** Handles from `base` on; the last service stays open to 0xFFFF. */
  method GenerateAttributes(ss: seq<Service>, base: nat) returns (placed: seq<Service>, aa: seq<Attr>)
    ensures placed == Place(ss, base) && aa == TableAttrs(placed, |placed|)
  {
    hide ServiceAttrs, PlaceService, ServiceSize;
    placed, aa := [], [];
    var h, last := base, |ss| - 1;
    var i := 0;
    while i < |ss|
      invariant 0 <= i <= |ss| && (i <= last || i == 0 ==> h == StartOf(ss, i, base))
      invariant placed == PlaceTo(ss, i, base)
      invariant aa == TableAttrs(placed, i)
    {
      var s, a;
      s, h, a := GenerateServiceAttributes(ss[i], h, i == last);
      TableAttrsPrefix(placed, placed + [s], i);
      placed, aa := placed + [s], aa + a;
      i := i + 1;
    }
  }

  lemma {:induction false} DescAttrsPrefix(a: seq<Descriptor>, b: seq<Descriptor>, i: nat, vh: nat)
    requires i <= |a| && a <= b
    ensures DescAttrs(a, i, vh) == DescAttrs(b, i, vh)
  {
    if i > 0 {
      DescAttrsPrefix(a, b, i - 1, vh);
    }
  }

  lemma {:induction false} CharsAttrsPrefix(a: seq<Characteristic>, b: seq<Characteristic>, j: nat)
    requires j <= |a| && a <= b
    ensures CharsAttrs(a, j) == CharsAttrs(b, j)
  {
    hide CharAttrs;
    if j > 0 {
      CharsAttrsPrefix(a, b, j - 1);
      assert a[j - 1] == b[j - 1];
    }
  }

  lemma {:induction false} TableAttrsPrefix(a: seq<Service>, b: seq<Service>, k: nat)
    requires k <= |a| && a <= b
    ensures TableAttrs(a, k) == TableAttrs(b, k)
  {
    hide ServiceAttrs;
    if k > 0 {
      TableAttrsPrefix(a, b, k - 1);
      assert a[k - 1] == b[k - 1];
    }
  }

  // ---------------------------------------------------------------- lookup

  const TOO_SMALL := -1
  const TOO_LARGE := -2

  /** `None` from `Subrange` is the panic of a slice whose bounds are reversed. */
  datatype AttrRange = AttrRange(aa: seq<Attr>, base: nat)
  {
    function Idx(h: nat): int
    {
      if h < base then TOO_SMALL
      else if h >= base + |aa| then TOO_LARGE
      else h - base
    }

    function At(h: nat): Option<Attr>
    {
      var i := Idx(h);
      if i < 0 then None else Some(aa[i])
    }

    function Subrange(start: nat, end: nat): (r: Option<seq<Attr>>)
      ensures r.None? <==> base <= end + 1 < start < base + |aa|
    {
      var startIdx := Idx(start);
      if startIdx == TOO_LARGE then Some([])
      else
        var lo := if startIdx == TOO_SMALL then 0 else startIdx;
        var endIdx := Idx(end + 1);
        if endIdx == TOO_SMALL then Some([])
        else
          var hi := if endIdx == TOO_LARGE then |aa| else endIdx;
          if lo <= hi then Some(aa[lo..hi]) else None
    }
  }

  /** Attribute `i` has handle `base + i`. */
  ghost predicate Indexed(aa: seq<Attr>, base: nat)
  {
    forall i :: 0 <= i < |aa| ==> aa[i].h == base + i
  }

  /** The reference meaning of a range: a linear scan by handle. */
  function Scan(aa: seq<Attr>, start: nat, end: nat): seq<Attr>
  {
    if aa == [] then []
    else if start <= aa[0].h <= end then [aa[0]] + Scan(aa[1..], start, end)
    else Scan(aa[1..], start, end)
  }

  lemma {:induction false} ScanKeeps(aa: seq<Attr>, start: nat, end: nat)
    ensures forall a :: a in Scan(aa, start, end) ==> a in aa && start <= a.h <= end
  {
    if aa != [] {
      ScanKeeps(aa[1..], start, end);
    }
  }

  lemma AtFindsExactly(r: AttrRange, h: nat, a: Attr)
    requires Indexed(r.aa, r.base)
    ensures r.At(h) == Some(a) <==> a in r.aa && a.h == h
  {
    if a in r.aa && a.h == h {
      var i :| 0 <= i < |r.aa| && r.aa[i] == a;
      assert i == h - r.base;
    }
  }

  lemma {:induction false} ScanConcat(a: seq<Attr>, b: seq<Attr>, start: nat, end: nat)
    ensures Scan(a + b, start, end) == Scan(a, start, end) + Scan(b, start, end)
  {
    if a == [] {
      assert a + b == b;
    } else {
      ScanConcat(a[1..], b, start, end);
      assert (a + b)[0] == a[0] && (a + b)[1..] == a[1..] + b;
      Assoc([a[0]], Scan(a[1..], start, end), Scan(b, start, end));
    }
  }

  lemma {:induction false} ScanNone(aa: seq<Attr>, start: nat, end: nat)
    requires forall i :: 0 <= i < |aa| ==> aa[i].h < start || aa[i].h > end
    ensures Scan(aa, start, end) == []
  {
    if aa != [] {
      ScanNone(aa[1..], start, end);
    }
  }

  lemma {:induction false} ScanAll(aa: seq<Attr>, start: nat, end: nat)
    requires forall i :: 0 <= i < |aa| ==> start <= aa[i].h <= end
    ensures Scan(aa, start, end) == aa
  {
    if aa != [] {
      ScanAll(aa[1..], start, end);
    }
  }

  lemma ScanMiddle(low: seq<Attr>, mid: seq<Attr>, high: seq<Attr>, start: nat, end: nat)
    requires forall i :: 0 <= i < |low| ==> low[i].h < start
    requires forall i :: 0 <= i < |mid| ==> start <= mid[i].h <= end
    requires forall i :: 0 <= i < |high| ==> high[i].h > end
    ensures Scan(low + mid + high, start, end) == mid
  {
    ScanConcat(low + mid, high, start, end);
    ScanConcat(low, mid, start, end);
    ScanNone(low, start, end);
    ScanAll(mid, start, end);
    ScanNone(high, start, end);
  }

  lemma ScanIsSlice(aa: seq<Attr>, base: nat, start: nat, end: nat, lo: nat, hi: nat)
    requires Indexed(aa, base) && lo <= hi <= |aa|
    requires lo == 0 || base + lo <= start
    requires lo == |aa| || start <= base + lo
    requires hi == |aa| || end < base + hi
    requires hi == 0 || base + hi <= end + 1
    ensures Scan(aa, start, end) == aa[lo..hi]
  {
    assert aa == aa[..lo] + aa[lo..hi] + aa[hi..];
    ScanMiddle(aa[..lo], aa[lo..hi], aa[hi..], start, end);
  }

  /** Whenever `Subrange` does not panic it returns what a linear scan returns. */
  lemma SubrangeIsScan(r: AttrRange, start: nat, end: nat)
    requires Indexed(r.aa, r.base) && r.Subrange(start, end).Some?
    ensures r.Subrange(start, end) == Some(Scan(r.aa, start, end))
  {
    var n := |r.aa|;
    if start >= r.base + n || end + 1 < r.base {
      ScanNone(r.aa, start, end);
    } else {
      var lo := if start < r.base then 0 else start - r.base;
      var hi := if end + 1 >= r.base + n then n else end + 1 - r.base;
      ScanIsSlice(r.aa, r.base, start, end, lo, hi);
    }
  }

  // --------------------------------------------------- the generated table

  lemma IndexedConcat(a: seq<Attr>, b: seq<Attr>, base: nat)
    requires Indexed(a, base) && Indexed(b, base + |a|)
    ensures Indexed(a + b, base)
  {}

  lemma {:induction false} PlaceDescsAt(ds: seq<Descriptor>, n: nat, h: nat, i: nat)
    requires i < n <= |ds|
    ensures PlaceDescs(ds, n, h)[i] == ds[i].(h := h + i)
  {
    if i < n - 1 {
      PlaceDescsAt(ds, n - 1, h, i);
    }
  }

  lemma {:induction false} PlaceCharsAt(cs: seq<Characteristic>, n: nat, h: nat, j: nat)
    requires j < n <= |cs|
    ensures PlaceChars(cs, n, h)[j] == PlaceChar(cs[j], h + CharsSize(cs, j))
  {
    if j < n - 1 {
      PlaceCharsAt(cs, n - 1, h, j);
    }
  }

  lemma {:induction false} PlaceToAt(ss: seq<Service>, n: nat, base: nat, k: nat)
    requires k < n <= |ss|
    ensures PlaceTo(ss, n, base)[k] == PlaceService(ss[k], StartOf(ss, k, base), EndOf(ss, k, base))
  {
    if k < n - 1 {
      PlaceToAt(ss, n - 1, base, k);
    }
  }

  lemma {:induction false} DescAttrsIndexed(ds: seq<Descriptor>, n: nat, h: nat, i: nat, vh: nat)
    requires i <= n <= |ds|
    ensures Indexed(DescAttrs(PlaceDescs(ds, n, h), i, vh), h)
  {
    if i > 0 {
      DescAttrsIndexed(ds, n, h, i - 1, vh);
      PlaceDescsAt(ds, n, h, i - 1);
    }
  }

  lemma CharAttrsIndexed(c: Characteristic, h: nat)
    ensures Indexed(CharAttrs(PlaceChar(c, h)), h) && |CharAttrs(PlaceChar(c, h))| == CharSize(c)
  {
    DescAttrsIndexed(c.descs, |c.descs|, h + 2, |c.descs|, h + 1);
    var p := PlaceChar(c, h);
    IndexedConcat([CharAttr(p), ValueAttr(p)], DescAttrs(p.descs, |p.descs|, h + 1), h);
  }

  lemma NoneIndexed(h: nat)
    ensures Indexed([], h)
  {}

  lemma {:induction false} CharsAttrsIndexed(cs: seq<Characteristic>, n: nat, h: nat, j: nat)
    requires j <= n <= |cs|
    ensures Indexed(CharsAttrs(PlaceChars(cs, n, h), j), h)
    ensures |CharsAttrs(PlaceChars(cs, n, h), j)| == CharsSize(cs, j)
  {
    hide CharAttrs, PlaceChar, CharSize, Indexed;
    if j == 0 {
      NoneIndexed(h);
    } else {
      CharsAttrsIndexed(cs, n, h, j - 1);
      PlaceCharsAt(cs, n, h, j - 1);
      CharAttrsIndexed(cs[j - 1], h + CharsSize(cs, j - 1));
      IndexedConcat(CharsAttrs(PlaceChars(cs, n, h), j - 1),
                    CharAttrs(PlaceChar(cs[j - 1], h + CharsSize(cs, j - 1))), h);
    }
  }

  lemma ServiceAttrsIndexed(s: Service, h: nat, endh: nat)
    ensures Indexed(ServiceAttrs(PlaceService(s, h, endh)), h)
    ensures |ServiceAttrs(PlaceService(s, h, endh))| == ServiceSize(s)
  {
    CharsAttrsIndexed(s.chars, |s.chars|, h + 1, |s.chars|);
    var p := PlaceService(s, h, endh);
    IndexedConcat([ServiceAttr(p)], CharsAttrs(p.chars, |p.chars|), h);
  }

  /** Blocks laid out one after the other make an indexed table. */
  lemma {:induction false} TableIndexed(ss: seq<Service>, p: seq<Service>, base: nat, k: nat)
    requires k <= |ss| == |p|
    requires forall i {:trigger p[i]} :: 0 <= i < |p| ==>
      Indexed(ServiceAttrs(p[i]), StartOf(ss, i, base)) && |ServiceAttrs(p[i])| == ServiceSize(ss[i])
    ensures Indexed(TableAttrs(p, k), base) && |TableAttrs(p, k)| == TableSize(ss, k)
  {
    if k > 0 {
      TableIndexed(ss, p, base, k - 1);
      IndexedConcat(TableAttrs(p, k - 1), ServiceAttrs(p[k - 1]), base);
    }
  }

  /** Attribute `i` of a generated table has handle `base + i`. */
  lemma GeneratedIndexed(ss: seq<Service>, base: nat)
    ensures var t := TableAttrs(Place(ss, base), |ss|);
      Indexed(t, base) && |t| == TableSize(ss, |ss|)
  {
    var p := Place(ss, base);
    forall i | 0 <= i < |p|
      ensures Indexed(ServiceAttrs(p[i]), StartOf(ss, i, base)) && |ServiceAttrs(p[i])| == ServiceSize(ss[i])
    {
      PlaceToAt(ss, |ss|, base, i);
      ServiceAttrsIndexed(ss[i], StartOf(ss, i, base), EndOf(ss, i, base));
    }
    TableIndexed(ss, p, base, |ss|);
  }

  lemma {:induction false} TableSizeGrows(ss: seq<Service>, j: nat, k: nat)
    requires j <= k <= |ss|
    ensures TableSize(ss, j) + (k - j) <= TableSize(ss, k)
  {
    if j < k {
      TableSizeGrows(ss, j, k - 1);
    }
  }

  lemma PlaceAt(ss: seq<Service>, base: nat, k: nat)
    requires k < |ss|
    ensures Place(ss, base)[k] == PlaceService(ss[k], StartOf(ss, k, base), EndOf(ss, k, base))
  {
    PlaceToAt(ss, |ss|, base, k);
  }

  lemma ServiceBefore(ss: seq<Service>, base: nat, k: nat, l: nat)
    requires k < l < |ss|
    ensures Place(ss, base)[k].endh < Place(ss, base)[l].h
    ensures l == k + 1 ==> Place(ss, base)[k].endh + 1 == Place(ss, base)[l].h
  {
    PlaceAt(ss, base, k);
    PlaceAt(ss, base, l);
    TableSizeGrows(ss, k + 1, l);
  }

  /** Service ranges start at `base`, are adjacent, end at 0xFFFF, and each handle
      in between belongs to exactly one of them. */
  lemma ServiceRangesPartition(ss: seq<Service>, base: nat, h: nat)
    requires ss != [] && base + TableSize(ss, |ss|) <= 0xFFFF
    requires base <= h <= 0xFFFF
    ensures var p := Place(ss, base);
      && p[0].h == base && p[|ss| - 1].endh == 0xFFFF
      && (forall k {:trigger p[k]} :: 0 <= k < |ss| - 1 ==> p[k].endh + 1 == p[k + 1].h)
      && (exists k :: 0 <= k < |ss| && p[k].h <= h <= p[k].endh)
      && (forall k, l :: 0 <= k < l < |ss| ==> p[k].endh < p[l].h)
  {
    var p := Place(ss, base);
    PlaceAt(ss, base, 0);
    PlaceAt(ss, base, |ss| - 1);
    forall k, l | 0 <= k < l < |ss|
      ensures p[k].endh < p[l].h && (l == k + 1 ==> p[k].endh + 1 == p[l].h)
    {
      ServiceBefore(ss, base, k, l);
    }
    var k := ServiceHolding(ss, base, h, |ss| - 1);
    PlaceAt(ss, base, k);
    assert p[k].h <= h <= p[k].endh;
  }

  lemma {:induction false} ServiceHolding(ss: seq<Service>, base: nat, h: nat, n: nat) returns (k: nat)
    requires n < |ss| && base <= h <= EndOf(ss, n, base)
    ensures k <= n && StartOf(ss, k, base) <= h <= EndOf(ss, k, base)
  {
    if StartOf(ss, n, base) <= h {
      k := n;
    } else {
      k := ServiceHolding(ss, base, h, n - 1);
    }
  }
}
