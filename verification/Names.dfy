/** 8.3 names: the segment parser `create_name` and the name text of `get_fileinfo`, for code page 437
    without long file names. */
module Names {
  import opened Bytes
  import Directory

  const DDEM: Byte := 0xE5
  const RDDEM: Byte := 0x05
  const BLANK: Byte := 0x20
  const DOT: Byte := 0x2E

  predicate IsSeparator(c: Byte) { c == 0x2F || c == 0x5C }
  predicate IsLower(c: Byte) { 0x61 <= c <= 0x7A }

  /** The characters `*+,:;<=>[]|"?` and DEL. */
  predicate Illegal(c: Byte) {
    c == 0x2A || c == 0x2B || c == 0x2C || c == 0x3A || c == 0x3B || c == 0x3C || c == 0x3D || c == 0x3E
    || c == 0x5B || c == 0x5D || c == 0x7C || c == 0x22 || c == 0x3F || c == 0x7F
  }

  /** Upcasing of extended characters in code page 437. */
  function Fold(c: Byte): Byte {
    match c
    case 0x81 => 0x9A case 0x82 => 0x45 case 0x83 => 0x41 case 0x84 => 0x8E case 0x85 => 0x41
    case 0x86 => 0x8F case 0x87 => 0x80 case 0x88 => 0x45 case 0x89 => 0x45 case 0x8A => 0x45
    case 0x8B => 0x49 case 0x8C => 0x49 case 0x8D => 0x49
    case 0x91 => 0x92 case 0x93 => 0x4F case 0x94 => 0x99 case 0x95 => 0x4F case 0x96 => 0x55
    case 0x97 => 0x55 case 0x98 => 0x59
    case 0xA0 => 0x41 case 0xA1 => 0x49 case 0xA2 => 0x4F case 0xA3 => 0x55 case 0xA4 => 0xA5
    case _ => c
  }

  function Upper(c: Byte): Byte { if IsLower(c) then c - 0x20 else c }

  /** A character that is stored as it is. */
  predicate Canon(c: Byte) {
    c > 0x20 && !IsSeparator(c) && c != DOT && !Illegal(c) && !IsLower(c) && Fold(c) == c
  }

  /** Folding and upcasing reach a fixed point in one pass. */
  lemma FoldedIsCanon(c: Byte)
    requires c > 0x20 && !IsSeparator(c) && c != DOT && !Illegal(Fold(c))
    ensures Canon(Upper(Fold(c)))
  {
  }

  // ---------------------------------------------------------------- parsing a path segment

  /** The end of a segment: the name as stored, whether it was taken for the last segment, and where
      the rest of the path starts. */
  datatype Parsed = Invalid | Segment(fn: seq<Byte>, last: bool, rest: nat)

  /** A C string: its last byte is the terminator. */
  predicate Terminated(p: seq<Byte>) { p != [] && p[|p| - 1] == 0 }

  function SkipSeparators(p: seq<Byte>, si: nat): (q: nat)
    requires Terminated(p) && si < |p|
    ensures si <= q < |p| && !IsSeparator(p[q])
    ensures forall k :: si <= k < q ==> IsSeparator(p[k])
    decreases |p| - si
  {
    if IsSeparator(p[si]) then SkipSeparators(p, si + 1) else si
  }

  /** `p[si] <= ' '` on signed characters. */
  predicate SignedNotAbove(c: Byte) { c <= 0x20 || c >= 0x80 }

  /** The main loop of `create_name`, with `i` bytes of a field ending at `ni` filled in. */
  function Scan(p: seq<Byte>, si: nat, i: nat, ni: nat, sfn: seq<Byte>): (r: Parsed)
    requires Terminated(p) && si < |p| && |sfn| == 11 && i <= ni && (ni == 8 || ni == 11)
    ensures r.Segment? ==> |r.fn| == 11
    decreases |p| - si
  {
    var c := p[si];
    if c <= 0x20 then Finish(sfn, i, true, si + 1)
    else if IsSeparator(c) then
      var q := SkipSeparators(p, si + 1);
      Finish(sfn, i, SignedNotAbove(p[q]), q)
    else if c == DOT || i >= ni then
      if ni == 11 || c != DOT then Invalid else Scan(p, si + 1, 8, 11, sfn)
    else
      if Illegal(Fold(c)) then Invalid else Scan(p, si + 1, i + 1, ni, sfn[i := Upper(Fold(c))])
  }

  function Finish(sfn: seq<Byte>, i: nat, last: bool, rest: nat): (r: Parsed)
    requires |sfn| == 11
  {
    if i == 0 then Invalid else Segment(if sfn[0] == DDEM then sfn[0 := RDDEM] else sfn, last, rest)
  }

  function Blanks(): (s: seq<Byte>)
    ensures |s| == 11
  {
    seq(11, _ => BLANK)
  }

  function Parse(p: seq<Byte>): (r: Parsed)
    requires Terminated(p)
    ensures r.Segment? ==> |r.fn| == 11
  {
    Scan(p, 0, 0, 8, Blanks())
  }

  /** `create_name` */
  method CreateName(p: seq<Byte>) returns (r: Parsed)
    requires Terminated(p)
    ensures r == Parse(p)
  {
    hide Fold, Illegal, Finish;
    var sfn := Blanks();
    var si, i, ni := 0, 0, 8;
    var c := p[0];
    while true
      invariant si < |p| && |sfn| == 11 && i <= ni && (ni == 8 || ni == 11)
      invariant Scan(p, si, i, ni, sfn) == Parse(p)
      decreases |p| - si
    {
      c := p[si];
      if c <= 0x20 {
        return Finish(sfn, i, true, si + 1);
      }
      if IsSeparator(c) {
        ghost var from := si + 1;
        si := si + 1;
        while IsSeparator(p[si])
          invariant from <= si < |p| && SkipSeparators(p, si) == SkipSeparators(p, from)
          decreases |p| - si
        {
          si := si + 1;
        }
        return Finish(sfn, i, SignedNotAbove(p[si]), si);
      }
      si := si + 1;
      if c == DOT || i >= ni {
        if ni == 11 || c != DOT { return Invalid; }
        i, ni := 8, 11;
      } else {
        c := Fold(c);
        if Illegal(c) { return Invalid; }
        if IsLower(c) { c := c - 0x20; }
        sfn := sfn[i := c];
        i := i + 1;
      }
    }
  }

  // ---------------------------------------------------------------- printing

  function Printed(c: Byte): Byte { if c == RDDEM then DDEM else c }

  /** The name text of `get_fileinfo`, from position `si` on. */
  function Text(n: seq<Byte>, si: nat): seq<Byte>
    requires |n| == 11 && si <= 11
    decreases 11 - si
  {
    if si == 11 then []
    else if n[si] == BLANK then Text(n, si + 1)
    else (if si == 8 then [DOT] else []) + [Printed(n[si])] + Text(n, si + 1)
  }

  /** `get_fileinfo`, name part. */
  method FileName(n: seq<Byte>) returns (name: seq<Byte>)
    requires |n| == 11
    ensures name == Text(n, 0)
  {
    hide Text;
    name := [];
    var si := 0;
    while si < 11
      invariant si <= 11 && name + Text(n, si) == Text(n, 0)
    {
      var c := n[si];
      TextStep(n, si);
      si := si + 1;
      if c != BLANK {
        if c == RDDEM { c := DDEM; }
        ghost var was := name;
        if si == 9 { name := name + [DOT]; }
        name := name + [c];
        assert name == was + ((if si == 9 then [DOT] else []) + [c]);
      }
    }
    TextEnd(n);
  }

  lemma TextStep(n: seq<Byte>, si: nat)
    requires |n| == 11 && si < 11
    ensures Text(n, si) == if n[si] == BLANK then Text(n, si + 1)
                           else ((if si == 8 then [DOT] else []) + [Printed(n[si])]) + Text(n, si + 1)
  {
  }

  lemma TextEnd(n: seq<Byte>)
    requires |n| == 11
    ensures Text(n, 11) == []
  {
  }

  // ---------------------------------------------------------------- which names are stored

  /** Canonical characters up to `b`, blanks behind them up to `hi`. */
  predicate FieldAt(r: seq<Byte>, lo: nat, b: nat, hi: nat)
    requires |r| == 11
  {
    lo <= b <= hi <= 11 && (forall k :: lo <= k < b ==> Canon(r[k])) && (forall k :: b <= k < hi ==> r[k] == BLANK)
  }

  /** The name before the replacement of a leading 0xE5. */
  function Raw(n: seq<Byte>): (r: seq<Byte>)
    requires |n| == 11
    ensures |r| == 11
  {
    if n[0] == RDDEM then n[0 := DDEM] else n
  }

  ghost predicate Stored(n: seq<Byte>) {
    |n| == 11 && n[0] != DDEM && exists b: nat, e: nat :: FieldAt(Raw(n), 0, b, 8) && FieldAt(Raw(n), 8, e, 11)
  }

  predicate AllBlank(n: seq<Byte>) { forall k :: 0 <= k < |n| ==> n[k] == BLANK }

  /** Every accepted segment gives a stored name. */
  lemma ParseStores(p: seq<Byte>)
    requires Terminated(p) && Parse(p).Segment?
    ensures Stored(Parse(p).fn)
  {
    ScanStores(p, 0, 0, 8, Blanks(), 0);
  }

  lemma {:induction false} ScanStores(p: seq<Byte>, si: nat, i: nat, ni: nat, sfn: seq<Byte>, b: nat)
    requires Terminated(p) && si < |p| && |sfn| == 11 && i <= ni && (ni == 8 || ni == 11)
    requires if ni == 8 then b == i && FieldAt(sfn, 0, i, 8) && FieldAt(sfn, 8, 8, 11)
             else FieldAt(sfn, 0, b, 8) && FieldAt(sfn, 8, i, 11)
    requires Scan(p, si, i, ni, sfn).Segment?
    ensures Stored(Scan(p, si, i, ni, sfn).fn)
    decreases |p| - si
  {
    var c := p[si];
    if c <= 0x20 || IsSeparator(c) {
      FinishStores(sfn, b, if ni == 8 then 8 else i);
    } else if c == DOT || i >= ni {
      ScanStores(p, si + 1, 8, 11, sfn, b);
    } else {
      FoldedIsCanon(c);
      ScanStores(p, si + 1, i + 1, ni, sfn[i := Upper(Fold(c))], if ni == 8 then i + 1 else b);
    }
  }

  lemma FinishStores(sfn: seq<Byte>, b: nat, e: nat)
    requires |sfn| == 11 && FieldAt(sfn, 0, b, 8) && FieldAt(sfn, 8, e, 11)
    ensures Stored(if sfn[0] == DDEM then sfn[0 := RDDEM] else sfn)
  {
    var n := if sfn[0] == DDEM then sfn[0 := RDDEM] else sfn;
    assert sfn[0] != RDDEM;
    assert Raw(n) == sfn;
  }

  /** A stored name never collides with a deleted slot or the end mark of a directory. */
  lemma StoredIsUsable(n: seq<Byte>)
    requires Stored(n)
    ensures Directory.Usable(n)
  {
  }

  // ---------------------------------------------------------------- print, then parse

  /** `r` with `w` written over position `i`. */
  function Filled(r: seq<Byte>, i: nat, w: seq<Byte>): (s: seq<Byte>)
    requires i + |w| <= |r|
    ensures |s| == |r|
    ensures forall k :: 0 <= k < |r| ==> s[k] == if i <= k < i + |w| then w[k - i] else r[k]
  {
    r[..i] + w + r[i + |w|..]
  }

  lemma ScanStep(p: seq<Byte>, si: nat, i: nat, ni: nat, sfn: seq<Byte>)
    requires Terminated(p) && si + 1 < |p| && |sfn| == 11 && (ni == 8 || ni == 11) && i < ni && Canon(p[si])
    ensures Scan(p, si, i, ni, sfn) == Scan(p, si + 1, i + 1, ni, sfn[i := p[si]])
  {
  }

  /** Canonical characters are copied as they are. */
  lemma {:induction false} ScanCanon(p: seq<Byte>, si: nat, i: nat, ni: nat, sfn: seq<Byte>, w: seq<Byte>)
    requires Terminated(p) && si + |w| < |p| && |sfn| == 11 && (ni == 8 || ni == 11) && i + |w| <= ni
    requires forall k :: 0 <= k < |w| ==> p[si + k] == w[k] && Canon(w[k])
    ensures Scan(p, si, i, ni, sfn) == Scan(p, si + |w|, i + |w|, ni, Filled(sfn, i, w))
    decreases |w|
  {
    hide Scan, Canon;
    if w == [] {
      assert Filled(sfn, i, w) == sfn;
    } else {
      assert p[si + 0] == w[0];
      ScanStep(p, si, i, ni, sfn);
      var t := w[1..];
      forall k | 0 <= k < |t| ensures p[si + 1 + k] == t[k] { assert p[si + (k + 1)] == w[k + 1]; }
      ScanCanon(p, si + 1, i + 1, ni, sfn[i := w[0]], t);
      assert Filled(sfn[i := w[0]], i + 1, t) == Filled(sfn, i, w);
    }
  }

  /** The text of a stored name: the body, and a dot and the extension if there is one. */
  lemma TextIs(n: seq<Byte>, b: nat, e: nat)
    requires |n| == 11 && FieldAt(Raw(n), 0, b, 8) && FieldAt(Raw(n), 8, e, 11)
    ensures Text(n, 0) == Raw(n)[..b] + if e > 8 then ['.' as int] + Raw(n)[8..e] else []
  {
    hide Text, Canon, Raw;
    TextBlanks(n, e, 11);
    TextEnd(n);
    TextExtension(n, e);
    TextBlanks(n, b, 8);
    TextCanon(n, 0, b);
    assert Raw(n)[0..b] == Raw(n)[..b];
  }

  lemma TextExtension(n: seq<Byte>, e: nat)
    requires |n| == 11 && FieldAt(Raw(n), 8, e, 11) && Text(n, e) == []
    ensures Text(n, 8) == if e > 8 then [DOT] + Raw(n)[8..e] else []
  {
    hide Text, Canon, Raw;
    if e > 8 {
      var r := Raw(n);
      TextCanon(n, 9, e);
      PrintedIsRaw(n, 8);
      TextStep(n, 8);
      assert r[8..e] == [r[8]] + r[9..e];
    }
  }

  lemma {:induction false} TextBlanks(n: seq<Byte>, lo: nat, hi: nat)
    requires |n| == 11 && lo <= hi <= 11 && forall k :: lo <= k < hi ==> Raw(n)[k] == BLANK
    ensures Text(n, lo) == Text(n, hi)
    decreases hi - lo
  {
    if lo < hi {
      assert Raw(n)[lo] == BLANK;
      TextBlanks(n, lo + 1, hi);
    }
  }

  lemma TextOne(n: seq<Byte>, k: nat)
    requires |n| == 11 && k < 11 && k != 8 && Canon(Raw(n)[k])
    ensures Text(n, k) == [Raw(n)[k]] + Text(n, k + 1)
  {
    hide Canon, Raw;
    PrintedIsRaw(n, k);
    assert [] + [Printed(n[k])] == [Printed(n[k])];
  }

  lemma SliceHead(r: seq<Byte>, lo: nat, hi: nat, t: seq<Byte>)
    requires lo < hi <= |r|
    ensures r[lo..hi] + t == [r[lo]] + (r[lo + 1..hi] + t)
  {
  }

  /** Away from the start of the extension, characters are printed one by one. */
  lemma {:induction false} TextCanon(n: seq<Byte>, lo: nat, hi: nat)
    requires |n| == 11 && lo <= hi <= 11 && !(lo <= 8 < hi)
    requires forall k :: lo <= k < hi ==> Canon(Raw(n)[k])
    ensures Text(n, lo) == Raw(n)[lo..hi] + Text(n, hi)
    decreases hi - lo
  {
    hide Text, Canon, Raw;
    if lo < hi {
      TextOne(n, lo);
      TextCanon(n, lo + 1, hi);
      SliceHead(Raw(n), lo, hi, Text(n, hi));
    }
  }

  lemma PrintedIsRaw(n: seq<Byte>, k: nat)
    requires |n| == 11 && k < 11 && Canon(Raw(n)[k])
    ensures Printed(n[k]) == Raw(n)[k] && n[k] != BLANK
  {
  }

  /** Printing a stored name and parsing the text gives the same eleven bytes, exactly when the name
      is not all blank. */
  lemma PrintParse(n: seq<Byte>)
    requires Stored(n)
    ensures Terminated(Text(n, 0) + [0])
    ensures var r := Parse(Text(n, 0) + [0]); (r.Segment? && r.fn == n) <==> !AllBlank(n)
    ensures !AllBlank(n) ==> Parse(Text(n, 0) + [0]).last
  {
    var b: nat, e: nat :| FieldAt(Raw(n), 0, b, 8) && FieldAt(Raw(n), 8, e, 11);
    TextIs(n, b, e);
    if AllBlank(n) {
      BlankText(n, b, e);
    } else {
      NotBlank(n, b, e);
      ParseText(n, b, e);
    }
  }

  lemma BlankText(n: seq<Byte>, b: nat, e: nat)
    requires |n| == 11 && AllBlank(n) && FieldAt(Raw(n), 0, b, 8) && FieldAt(Raw(n), 8, e, 11)
    ensures b == 0 && e == 8
  {
    if b > 0 {
      PrintedIsRaw(n, 0);
    }
    if e > 8 {
      PrintedIsRaw(n, 8);
    }
  }

  lemma NotBlank(n: seq<Byte>, b: nat, e: nat)
    requires |n| == 11 && !AllBlank(n) && FieldAt(Raw(n), 0, b, 8) && FieldAt(Raw(n), 8, e, 11)
    ensures b > 0 || e > 8
  {
  }

  lemma ParseText(n: seq<Byte>, b: nat, e: nat)
    requires |n| == 11 && n[0] != DDEM && FieldAt(Raw(n), 0, b, 8) && FieldAt(Raw(n), 8, e, 11) && (b > 0 || e > 8)
    ensures var p := Raw(n)[..b] + (if e > 8 then [DOT] + Raw(n)[8..e] else []) + [0];
            Terminated(p) && Parse(p) == Segment(n, true, |p|)
  {
    hide Scan;
    var r := Raw(n);
    var x := if e > 8 then [DOT] + r[8..e] else [];
    var p := r[..b] + x + [0];
    var s := Filled(Blanks(), 0, r[..b]);
    forall k | 0 <= k < b ensures p[0 + k] == r[..b][k] && Canon(r[..b][k]) {}
    ScanCanon(p, 0, 0, 8, Blanks(), r[..b]);
    if e > 8 {
      ParseExtension(p, b, s, r[8..e]);
      FilledWhole(n, b, e);
    } else {
      ScanEnds(p, b, b, 8, s);
      FilledWhole(n, b, 8);
      assert Filled(s, 8, []) == s;
    }
  }

  lemma ScanEnds(p: seq<Byte>, si: nat, i: nat, ni: nat, s: seq<Byte>)
    requires Terminated(p) && si < |p| && |s| == 11 && i <= ni && (ni == 8 || ni == 11) && p[si] == 0
    ensures Scan(p, si, i, ni, s) == Finish(s, i, true, si + 1)
  {
  }

  lemma ParseExtension(p: seq<Byte>, b: nat, s: seq<Byte>, w: seq<Byte>)
    requires Terminated(p) && |p| == b + 1 + |w| + 1 && |s| == 11 && b <= 8 && 0 < |w| <= 3 && p[b] == DOT
    requires forall k :: 0 <= k < |w| ==> p[b + 1 + k] == w[k] && Canon(w[k])
    ensures var t := Filled(s, 8, w);
            Scan(p, b, b, 8, s) == Segment(if t[0] == DDEM then t[0 := RDDEM] else t, true, |p|)
  {
    assert Scan(p, b, b, 8, s) == Scan(p, b + 1, 8, 11, s);
    ScanCanon(p, b + 1, 8, 11, s, w);
    ScanEnds(p, b + 1 + |w|, 8 + |w|, 11, Filled(s, 8, w));
  }

  lemma FilledWhole(n: seq<Byte>, b: nat, e: nat)
    requires |n| == 11 && n[0] != DDEM && FieldAt(Raw(n), 0, b, 8) && FieldAt(Raw(n), 8, e, 11)
    ensures var r := Raw(n);
            var s := Filled(Filled(Blanks(), 0, r[..b]), 8, r[8..e]);
            s == r && n == if s[0] == DDEM then s[0 := RDDEM] else s
  {
  }

  // ---------------------------------------------------------------- main results

  /** A character once stored stays. */
  lemma {:induction false} ScanKeeps(p: seq<Byte>, si: nat, i: nat, ni: nat, sfn: seq<Byte>, k: nat)
    requires Terminated(p) && si < |p| && |sfn| == 11 && i <= ni && (ni == 8 || ni == 11) && k < i && k < 11
    requires sfn[k] != BLANK && Scan(p, si, i, ni, sfn).Segment?
    ensures Scan(p, si, i, ni, sfn).fn[k] != BLANK
    decreases |p| - si
  {
    hide Fold, Illegal, Upper, SkipSeparators, SignedNotAbove;
    var c := p[si];
    if c <= 0x20 || IsSeparator(c) {
      assert SegmentEnd(p, si) == si;
    } else if c == DOT || i >= ni {
      ScanKeeps(p, si + 1, 8, 11, sfn, k);
    } else {
      ScanKeeps(p, si + 1, i + 1, ni, sfn[i := Upper(Fold(c))], k);
    }
  }

  // ---------------------------------------------------------------- what is stored for which segment

  /** `x` is the capital of `c` in code page 437, letters with an accent losing it when there is no capital
      with the same accent, and with the source also e acute and y with diaeresis. */
  predicate Upcased(c: Byte, x: Byte) {
    if 'a' as int <= c <= 'z' as int then x == c - ('a' as int - 'A' as int)
    else if c < 0x80 then x == c
    else if c in {0x83, 0x85, 0xA0} then x == 'A' as int                 // a circumflex, grave, acute
    else if c in {0x82, 0x88, 0x89, 0x8A} then x == 'E' as int           // e acute, circumflex, diaeresis, grave
    else if c in {0x8B, 0x8C, 0x8D, 0xA1} then x == 'I' as int           // i diaeresis, circumflex, grave, acute
    else if c in {0x93, 0x95, 0xA2} then x == 'O' as int                 // o circumflex, grave, acute
    else if c in {0x96, 0x97, 0xA3} then x == 'U' as int                 // u circumflex, grave, acute
    else if c == 0x98 then x == 'Y' as int                               // y diaeresis
    else (c, x) in {(0x87, 0x80), (0x81, 0x9A), (0x84, 0x8E), (0x86, 0x8F), (0x91, 0x92), (0x94, 0x99), (0xA4, 0xA5)}
         || (c == x && c !in {0x87, 0x81, 0x84, 0x86, 0x91, 0x94, 0xA4}) // with a capital of their own, and all others
  }

  /** A character a name may contain. */
  predicate Legal(c: Byte) {
    (c as char) !in "*+,:;<=>[]|\"?" && c != 0x7F
  }

  lemma FoldIs(c: Byte)
    requires c > 0x20 && !IsSeparator(c)
    ensures Illegal(Fold(c)) <==> !Legal(c)
    ensures Upcased(c, Upper(Fold(c))) && Upper(Fold(c)) != BLANK
  {
  }

  /** The first dot before position `e`, or `e`. */
  function FirstDot(p: seq<Byte>, si: nat, e: nat): (d: nat)
    requires si <= e <= |p|
    ensures si <= d <= e && (d < e ==> p[d] == '.' as int) && forall k :: si <= k < d ==> p[k] != '.' as int
    decreases e - si
  {
    if si == e || p[si] == '.' as int then si else FirstDot(p, si + 1, e)
  }

  /** Legal characters, none of them a dot, from `a` up to `b`. */
  predicate LegalRange(p: seq<Byte>, a: nat, b: nat)
    requires b <= |p|
  {
    forall k :: a <= k < b ==> p[k] != '.' as int && Legal(p[k])
  }

  /** At most 8 legal characters, and behind a dot, if there is one, at most 3 more; not empty. */
  predicate Acceptable(p: seq<Byte>)
    requires Terminated(p)
  {
    var e := SegmentEnd(p, 0);
    var d := FirstDot(p, 0, e);
    0 < e && d <= 8 && e - d <= 4 && LegalRange(p, 0, d) && LegalRange(p, d + 1, e)
  }

  /** The body of `n` stands for `p[..d]`, padded with blanks. */
  predicate BodyIs(p: seq<Byte>, d: nat, n: seq<Byte>)
    requires d <= |p| && |n| == 11
  {
    forall k :: 0 <= k < 8 ==> if k < d then Upcased(p[k], n[k]) && n[k] != ' ' as int else n[k] == ' ' as int
  }

  /** The extension of `n` stands for the `m` characters behind position `d`, padded with blanks. */
  predicate ExtensionIs(p: seq<Byte>, d: nat, m: nat, n: seq<Byte>)
    requires d + 1 + m <= |p| && |n| == 11
  {
    forall k :: 8 <= k < 11 ==> if k < 8 + m then Upcased(p[d + 1 + (k - 8)], n[k]) else n[k] == ' ' as int
  }

  /** The name stored for the segment that ends at `e` with its first dot at `d`; 0x05 stands for a leading 0xE5. */
  predicate NameIs(p: seq<Byte>, d: nat, e: nat, n: seq<Byte>)
    requires d <= e < |p|
  {
    && |n| == 11 && n[0] != 0xE5
    && var r := if n[0] == 0x05 then n[0 := 0xE5] else n;
       BodyIs(p, d, r) && ExtensionIs(p, d, if d < e then e - d - 1 else 0, r)
  }

  lemma FinishIs(p: seq<Byte>, d: nat, e: nat, sfn: seq<Byte>, i: nat, last: bool, rest: nat)
    requires d <= e < |p| && |sfn| == 11 && BodyIs(p, d, sfn) && sfn[0] != RDDEM
    requires ExtensionIs(p, d, if d < e then e - d - 1 else 0, sfn)
    ensures Finish(sfn, i, last, rest).Segment? <==> i > 0
    ensures i > 0 ==> NameIs(p, d, e, Finish(sfn, i, last, rest).fn)
  {
    hide Upcased, BodyIs, ExtensionIs;
    var n := if sfn[0] == DDEM then sfn[0 := RDDEM] else sfn;
    assert Raw(n) == sfn;
  }

  /** The extension, from its `m`-th character on. */
  lemma {:induction false} ExtensionScan(p: seq<Byte>, d: nat, m: nat, sfn: seq<Byte>)
    requires Terminated(p) && d <= 8 && m <= 3 && |sfn| == 11 && sfn[0] != RDDEM
    requires d < SegmentEnd(p, 0) && d + 1 + m <= SegmentEnd(p, 0) && BodyIs(p, d, sfn) && ExtensionIs(p, d, m, sfn)
    ensures var e, r := SegmentEnd(p, 0), Scan(p, d + 1 + m, 8 + m, 11, sfn);
            && (r.Segment? <==> e - d <= 4 && LegalRange(p, d + 1 + m, e))
            && (r.Segment? ==> NameIs(p, d, e, r.fn))
    decreases 3 - m
  {
    hide Fold, Upper, Illegal, Legal, Upcased, SkipSeparators, SignedNotAbove, BodyIs, NameIs, Finish;
    var e, si := SegmentEnd(p, 0), d + 1 + m;
    var c := p[si];
    if si == e {
      if c <= 0x20 {
        FinishIs(p, d, e, sfn, 8 + m, true, si + 1);
      } else {
        var q := SkipSeparators(p, si + 1);
        FinishIs(p, d, e, sfn, 8 + m, SignedNotAbove(p[q]), q);
      }
    } else if m < 3 && c != DOT {
      FoldIs(c);
      if Legal(c) {
        Extended(p, d, m, sfn, Upper(Fold(c)));
        ExtensionScan(p, d, m + 1, sfn[8 + m := Upper(Fold(c))]);
        assert LegalRange(p, si, e) <==> LegalRange(p, si + 1, e);
      }
    }
  }

  lemma Extended(p: seq<Byte>, d: nat, m: nat, sfn: seq<Byte>, x: Byte)
    requires |sfn| == 11 && m < 3 && d + 1 + m < |p| && BodyIs(p, d, sfn) && ExtensionIs(p, d, m, sfn)
    requires Upcased(p[d + 1 + m], x)
    ensures BodyIs(p, d, sfn[8 + m := x]) && ExtensionIs(p, d, m + 1, sfn[8 + m := x])
  {
    hide Upcased;
  }

  /** The body, from its `m`-th character on. */
  lemma {:induction false} BodyScan(p: seq<Byte>, m: nat, sfn: seq<Byte>)
    requires Terminated(p) && m <= 8 && |sfn| == 11 && sfn[0] != RDDEM
    requires m <= FirstDot(p, 0, SegmentEnd(p, 0)) && BodyIs(p, m, sfn) && ExtensionIs(p, m, 0, sfn)
    ensures var e, r := SegmentEnd(p, 0), Scan(p, m, m, 8, sfn);
            var d := FirstDot(p, 0, e);
            && (r.Segment? <==> 0 < e && d <= 8 && e - d <= 4 && LegalRange(p, m, d) && LegalRange(p, d + 1, e))
            && (r.Segment? ==> NameIs(p, d, e, r.fn))
    decreases 8 - m
  {
    hide Fold, Upper, Illegal, Legal, Upcased, SkipSeparators, SignedNotAbove, BodyIs, NameIs, Finish, FirstDot;
    var e := SegmentEnd(p, 0);
    var d, c := FirstDot(p, 0, e), p[m];
    if m == e {
      if c <= 0x20 {
        FinishIs(p, d, e, sfn, m, true, m + 1);
      } else {
        var q := SkipSeparators(p, m + 1);
        FinishIs(p, d, e, sfn, m, SignedNotAbove(p[q]), q);
      }
    } else if c == DOT {
      NoExtension(p, m, sfn);
      ExtensionScan(p, m, 0, sfn);
    } else if m < 8 {
      FoldIs(c);
      if Legal(c) {
        BodyMore(p, m, sfn, Upper(Fold(c)));
        BodyScan(p, m + 1, sfn[m := Upper(Fold(c))]);
        assert LegalRange(p, m, d) <==> LegalRange(p, m + 1, d);
      }
    }
  }

  lemma NoExtension(p: seq<Byte>, m: nat, sfn: seq<Byte>)
    requires |sfn| == 11 && m < |p| && ExtensionIs(p, m, 0, sfn)
    ensures forall d: nat :: d < |p| ==> ExtensionIs(p, d, 0, sfn)
  {
  }

  lemma BodyMore(p: seq<Byte>, m: nat, sfn: seq<Byte>, x: Byte)
    requires |sfn| == 11 && m < 8 && m + 1 < |p| && BodyIs(p, m, sfn) && ExtensionIs(p, m, 0, sfn) && sfn[0] != RDDEM
    requires Upcased(p[m], x) && x != BLANK && p[m] > 0x20
    ensures BodyIs(p, m + 1, sfn[m := x]) && ExtensionIs(p, m + 1, 0, sfn[m := x]) && sfn[m := x][0] != RDDEM
  {
  }

  /** Which segments are accepted, and what is stored for them, character by character. */
  lemma SegmentIs(p: seq<Byte>)
    requires Terminated(p)
    ensures Parse(p).Segment? <==> Acceptable(p)
    ensures Parse(p).Segment? ==>
              NameIs(p, FirstDot(p, 0, SegmentEnd(p, 0)), SegmentEnd(p, 0), Parse(p).fn)
  {
    BodyScan(p, 0, Blanks());
  }

  /** The segment is a dot and nothing else. */
  predicate LoneDot(p: seq<Byte>) {
    |p| > 1 && p[0] == DOT && (p[1] <= 0x20 || IsSeparator(p[1]))
  }

  /** The segments that give the all-blank name are the lone dots. */
  lemma BlankIsLoneDot(p: seq<Byte>)
    requires Terminated(p) && Parse(p).Segment?
    ensures AllBlank(Parse(p).fn) <==> LoneDot(p)
  {
    var c := p[0];
    if c == DOT {
      var d := p[1];
      assert Parse(p) == Scan(p, 1, 8, 11, Blanks());
      if d <= 0x20 || IsSeparator(d) {
        assert Parse(p).fn == Blanks();
      } else {
        FoldedIsCanon(d);
        ScanKeeps(p, 2, 9, 11, Blanks()[8 := Upper(Fold(d))], 8);
      }
    } else {
      FoldedIsCanon(c);
      ScanKeeps(p, 1, 1, 8, Blanks()[0 := Upper(Fold(c))], 0);
    }
  }

  /** Printing then parsing is the identity on the name of every accepted segment except a lone dot. */
  lemma RoundTrip(p: seq<Byte>)
    requires Terminated(p) && Parse(p).Segment?
    ensures var n := Parse(p).fn;
            var again := Parse(Text(n, 0) + [0]);
            (again.Segment? && again.fn == n) <==> !LoneDot(p)
  {
    ParseStores(p);
    PrintParse(Parse(p).fn);
    BlankIsLoneDot(p);
  }

  /** The path "A/" followed by the byte 0x80: its first segment is taken for the last one. */
  lemma LastFlagFails()
    ensures var p: seq<Byte> := [0x41, 0x2F, 0x80, 0];
            Parse(p).Segment? && Parse(p).last && SegmentFollows(p)
  {
    var p: seq<Byte> := [0x41, 0x2F, 0x80, 0];
    assert Scan(p, 0, 0, 8, Blanks()) == Scan(p, 1, 1, 8, Blanks()[0 := 0x41]);
    assert SkipSeparators(p, 2) == Behind(p, 2) == 2;
    assert SegmentEnd(p, 0) == SegmentEnd(p, 1) == 1;
  }

  /** A lone dot is accepted and gives the all-blank name. */
  lemma DotIsBlank()
    ensures Parse([DOT, 0]).Segment? && AllBlank(Parse([DOT, 0]).fn)
  {
    assert Scan([DOT, 0], 0, 0, 8, Blanks()) == Scan([DOT, 0], 1, 8, 11, Blanks());
  }

  /** A slash or a backslash. */
  predicate Slash(c: Byte) { c == '/' as int || c == '\\' as int }

  /** Where the first segment ends: at a slash, or at a byte that ends the path. */
  function SegmentEnd(p: seq<Byte>, si: nat): (e: nat)
    requires Terminated(p) && si < |p|
    ensures si <= e < |p| && (p[e] <= 0x20 || Slash(p[e]))
    ensures forall k :: si <= k < e ==> p[k] > 0x20 && !Slash(p[k])
    decreases |p| - si
  {
    if p[si] <= 0x20 || Slash(p[si]) then si else SegmentEnd(p, si + 1)
  }

  /** The first byte from `si` on that is no slash. */
  function Behind(p: seq<Byte>, si: nat): (q: nat)
    requires Terminated(p) && si < |p|
    ensures si <= q < |p| && !Slash(p[q]) && forall k :: si <= k < q ==> Slash(p[k])
    decreases |p| - si
  {
    if Slash(p[si]) then Behind(p, si + 1) else si
  }

  /** Where the next segment starts: behind the slashes, or behind the end of the path. */
  function NextSegment(p: seq<Byte>): nat
    requires Terminated(p)
  {
    var e := SegmentEnd(p, 0);
    if Slash(p[e]) then Behind(p, e + 1) else e + 1
  }

  /** Another segment follows the first one. */
  predicate SegmentFollows(p: seq<Byte>)
    requires Terminated(p)
  {
    Slash(p[SegmentEnd(p, 0)]) && p[NextSegment(p)] > 0x20
  }

  lemma {:induction false} BehindIs(p: seq<Byte>, si: nat)
    requires Terminated(p) && si < |p|
    ensures SkipSeparators(p, si) == Behind(p, si)
    decreases |p| - si
  {
    if Slash(p[si]) {
      BehindIs(p, si + 1);
    }
  }

  /** The parser stops where the path says, and its last-segment flag is right exactly when the following
      segment, if any, does not start with an extended character: the test is made on a signed character. */
  lemma LastFlag(p: seq<Byte>)
    requires Terminated(p) && Parse(p).Segment?
    ensures Parse(p).rest == NextSegment(p)
    ensures (Parse(p).last <==> !SegmentFollows(p)) <==> !(SegmentFollows(p) && p[NextSegment(p)] >= 0x80)
  {
    ScanRest(p, 0, 0, 8, Blanks());
    var e := SegmentEnd(p, 0);
    if Slash(p[e]) { BehindIs(p, e + 1); }
  }

  /** What the parser reports when it stops at position `e`. */
  predicate StopsAt(p: seq<Byte>, e: nat, r: Parsed)
    requires Terminated(p) && e < |p| && (p[e] == 0 ==> !IsSeparator(p[e]))
  {
    && r.Segment?
    && if IsSeparator(p[e]) then
         e + 1 < |p| && r.rest == SkipSeparators(p, e + 1) && r.last == SignedNotAbove(p[r.rest])
       else
         r.rest == e + 1 && r.last
  }

  lemma {:induction false} ScanRest(p: seq<Byte>, si: nat, i: nat, ni: nat, sfn: seq<Byte>)
    requires Terminated(p) && si < |p| && |sfn| == 11 && i <= ni && (ni == 8 || ni == 11)
    requires Scan(p, si, i, ni, sfn).Segment?
    ensures StopsAt(p, SegmentEnd(p, si), Scan(p, si, i, ni, sfn))
    decreases |p| - si
  {
    hide Fold, Illegal, Upper, SkipSeparators, SignedNotAbove, StopsAt;
    var c := p[si];
    if c <= 0x20 || IsSeparator(c) {
      ScanStops(p, si, i, ni, sfn);
    } else if c == DOT || i >= ni {
      ScanRest(p, si + 1, 8, 11, sfn);
    } else {
      ScanRest(p, si + 1, i + 1, ni, sfn[i := Upper(Fold(c))]);
    }
  }

  lemma ScanStops(p: seq<Byte>, si: nat, i: nat, ni: nat, sfn: seq<Byte>)
    requires Terminated(p) && si < |p| && |sfn| == 11 && i <= ni && (ni == 8 || ni == 11)
    requires Scan(p, si, i, ni, sfn).Segment? && (p[si] <= 0x20 || IsSeparator(p[si]))
    ensures SegmentEnd(p, si) == si && StopsAt(p, si, Scan(p, si, i, ni, sfn))
  {
    hide Fold, Illegal, Upper, SkipSeparators, SignedNotAbove;
  }
}
