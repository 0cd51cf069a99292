/** The set-associative cache of 64-bit lines of
    cpp/practice/other/set_assotiative_cache.cpp: LinesNum lines in
    LinesNum / LinesInSet sets of LinesInSet lines. An address splits into a
    6-bit offset, a set index (the line number modulo the number of sets) and
    a tag (the rest), which a line stores plus one so that tag 0 marks an empty
    line. find reads `(value >> offset) % 8` from the line carrying the tag.

    Addresses and line values are std::uint64_t; no arithmetic here wraps, since
    an address divided by 64 plus one stays below 2^64. The random line choice
    of std::rand() is a parameter. */
module AddressCache {

  datatype CacheLine = CacheLine(tag: nat, value: bv64)

  datatype Option<T> = None | Some(v: T)

  const ADDRESS_MODULUS: int := 0x1_0000_0000_0000_0000

  /** The bits of one line: sizeof(std::uint64_t) * 8. */
  const LINE_BITS: nat := 64

  const EMPTY_LINE: CacheLine := CacheLine(0, 0)

  // ---------------------------------------------------------------------------
  // Address decomposition

  function Offset(addr: nat): (o: nat)
    ensures o < LINE_BITS
  {
    addr % LINE_BITS
  }

  function SetOf(addr: nat, setNum: nat): (s: nat)
    requires setNum >= 1
    ensures s < setNum
  {
    (addr / LINE_BITS) % setNum
  }

  /** The tag a line stores for an address: never 0, the empty mark. */
  function TagOf(addr: nat, setNum: nat): (t: nat)
    requires setNum >= 1
    ensures t >= 1
  {
    (addr / LINE_BITS) / setNum + 1
  }

  /** Offset, set and tag together determine the address. */
  lemma DecompositionIsLossless(a: nat, b: nat, setNum: nat)
    requires setNum >= 1
    requires Offset(a) == Offset(b) && SetOf(a, setNum) == SetOf(b, setNum) && TagOf(a, setNum) == TagOf(b, setNum)
    ensures a == b
  {
    var la, lb := a / LINE_BITS, b / LINE_BITS;
    assert la == (la / setNum) * setNum + la % setNum;
    assert lb == (lb / setNum) * setNum + lb % setNum;
    assert la == lb;
    assert a == la * LINE_BITS + a % LINE_BITS;
    assert b == lb * LINE_BITS + b % LINE_BITS;
  }

  /** The first line of an address's set. */
  function SetStart(addr: nat, setNum: nat, linesInSet: nat): (start: nat)
    requires setNum >= 1
    ensures start + linesInSet <= setNum * linesInSet
  {
    LastSetFits(SetOf(addr, setNum), setNum, linesInSet);
    SetOf(addr, setNum) * linesInSet
  }

  lemma LastSetFits(s: nat, setNum: nat, n: nat)
    requires s < setNum
    ensures s * n + n <= setNum * n
  {
    MulMonotone(s + 1, setNum, n);
    assert (s + 1) * n == s * n + n;
  }

  lemma {:induction false} MulMonotone(a: nat, b: nat, n: nat)
    requires a <= b
    ensures a * n <= b * n
    decreases b - a
  {
    if a < b {
      MulMonotone(a, b - 1, n);
      assert b * n == (b - 1) * n + n;
    }
  }

  /** What find returns from a line: `(value >> offset) % 8`, the three bits
      at the offset. */
  function LineBits(value: bv64, offset: nat): (b: bv8)
    requires offset < LINE_BITS
    ensures b < 8
  {
    ((value >> offset) % 8) as bv8
  }

  // ---------------------------------------------------------------------------
  // Searching a set

  /** The first line of the set, from position el on, that is empty or
      carries the tag: where push_line writes without replacing. */
  function FirstFit(L: seq<CacheLine>, start: nat, n: nat, tag: nat, el: nat): (r: Option<nat>)
    requires start + n <= |L| && el <= n
    ensures r.Some? ==> el <= r.v < n && (L[start + r.v].tag == 0 || L[start + r.v].tag == tag)
    ensures r.Some? ==> forall i | start + el <= i < start + r.v :: L[i].tag != 0 && L[i].tag != tag
    ensures r.None? ==> forall i | start + el <= i < start + n :: L[i].tag != 0 && L[i].tag != tag
    decreases n - el
  {
    if el == n then None
    else if L[start + el].tag == 0 || L[start + el].tag == tag then Some(el)
    else FirstFit(L, start, n, tag, el + 1)
  }

  /** The first line of the set, from position el on, carrying the tag:
      where find reads. */
  function Lookup(L: seq<CacheLine>, start: nat, n: nat, tag: nat, el: nat): (r: Option<nat>)
    requires start + n <= |L| && el <= n
    ensures r.Some? ==> el <= r.v < n && L[start + r.v].tag == tag
    ensures r.Some? ==> forall i | start + el <= i < start + r.v :: L[i].tag != tag
    ensures r.None? ==> forall i | start + el <= i < start + n :: L[i].tag != tag
    decreases n - el
  {
    if el == n then None
    else if L[start + el].tag == tag then Some(el)
    else Lookup(L, start, n, tag, el + 1)
  }

  // ---------------------------------------------------------------------------
  // push_line and find on the line contents

  /** The line of its set push_line writes: the first fit, else the randomly
      chosen one. */
  function ChosenLine(L: seq<CacheLine>, start: nat, n: nat, tag: nat, rnd: nat): (el: nat)
    requires start + n <= |L| && n >= 1
    ensures el < n
  {
    match FirstFit(L, start, n, tag, 0)
    case Some(el) => el
    case None => rnd % n
  }

  /** push_line with the tag a replaced line receives as a parameter. */
  function Place(L: seq<CacheLine>, start: nat, n: nat, tag: nat, value: bv64, rnd: nat, replacedTag: nat): (M: seq<CacheLine>)
    requires start + n <= |L| && n >= 1
    ensures |M| == |L|
  {
    match FirstFit(L, start, n, tag, 0)
    case Some(el) => L[start + el := CacheLine(tag, value)]
    case None => L[start + rnd % n := CacheLine(replacedTag, value)]
  }

  /** push_line as written: a replaced line receives the tag without the
      added one. */
  function PushedAsWritten(L: seq<CacheLine>, setNum: nat, n: nat, addr: nat, value: bv64, rnd: nat): (M: seq<CacheLine>)
    requires setNum >= 1 && n >= 1 && setNum * n <= |L|
    ensures |M| == |L|
  {
    Place(L, SetStart(addr, setNum, n), n, TagOf(addr, setNum), value, rnd, TagOf(addr, setNum) - 1)
  }

  /** push_line with the replaced line receiving the same tag as any other. */
  function Pushed(L: seq<CacheLine>, setNum: nat, n: nat, addr: nat, value: bv64, rnd: nat): (M: seq<CacheLine>)
    requires setNum >= 1 && n >= 1 && setNum * n <= |L|
    ensures |M| == |L|
  {
    Place(L, SetStart(addr, setNum, n), n, TagOf(addr, setNum), value, rnd, TagOf(addr, setNum))
  }

  /** find: whether a line of the address's set carries its tag, and the
      bits that line yields at the address's offset. */
  function Found(L: seq<CacheLine>, setNum: nat, n: nat, addr: nat): (r: (bool, bv8))
    requires setNum >= 1 && setNum * n <= |L|
  {
    var start := SetStart(addr, setNum, n);
    match Lookup(L, start, n, TagOf(addr, setNum), 0)
    case Some(el) => (true, LineBits(L[start + el].value, Offset(addr)))
    case None => (false, 0)
  }

  // ---------------------------------------------------------------------------
  // Properties

  /** push_line writes exactly one line, in the address's set, with the
      address's tag and the new value; every other line stays. */
  lemma PushWritesOneLine(L: seq<CacheLine>, setNum: nat, n: nat, addr: nat, value: bv64, rnd: nat)
    requires setNum >= 1 && n >= 1 && setNum * n <= |L|
    ensures var start := SetStart(addr, setNum, n);
      var el := ChosenLine(L, start, n, TagOf(addr, setNum), rnd);
      var M := Pushed(L, setNum, n, addr, value, rnd);
      M[start + el] == CacheLine(TagOf(addr, setNum), value) &&
      forall i | 0 <= i < |L| && i != start + el :: M[i] == L[i]
  {
  }

  /** The line push_line picks without replacing is the first one of the set
      that is empty or already carries the tag; it replaces only when every
      line of the set holds another tag. */
  lemma PushPrefersFirstFit(L: seq<CacheLine>, setNum: nat, n: nat, addr: nat, rnd: nat)
    requires setNum >= 1 && n >= 1 && setNum * n <= |L|
    ensures var start := SetStart(addr, setNum, n);
      var tag := TagOf(addr, setNum);
      var el := ChosenLine(L, start, n, tag, rnd);
      ((L[start + el].tag == 0 || L[start + el].tag == tag) &&
       forall i | start <= i < start + el :: L[i].tag != 0 && L[i].tag != tag) ||
      (el == rnd % n && forall i | start <= i < start + n :: L[i].tag != 0 && L[i].tag != tag)
  {
  }

  /** find never matches an empty line. */
  lemma FindSkipsEmptyLines(L: seq<CacheLine>, setNum: nat, n: nat, addr: nat)
    requires setNum >= 1 && setNum * n <= |L|
    ensures var start := SetStart(addr, setNum, n);
      var r := Lookup(L, start, n, TagOf(addr, setNum), 0);
      r.Some? ==> L[start + r.v].tag != 0
  {
  }

  /** find right after push_line of the same 64-bit line hits, and reads the
      pushed value at the address's offset. */
  lemma PushThenFind(L: seq<CacheLine>, setNum: nat, n: nat, addr: nat, value: bv64, rnd: nat, probe: nat)
    requires setNum >= 1 && n >= 1 && setNum * n <= |L|
    requires probe / LINE_BITS == addr / LINE_BITS
    ensures Found(Pushed(L, setNum, n, addr, value, rnd), setNum, n, probe) == (true, LineBits(value, Offset(probe)))
  {
    var start := SetStart(addr, setNum, n);
    var tag := TagOf(addr, setNum);
    assert SetStart(probe, setNum, n) == start && TagOf(probe, setNum) == tag;
    PlaceThenLookup(L, start, n, tag, value, rnd);
  }

  /** The line Place writes is the first of its set carrying the tag. */
  lemma PlaceThenLookup(L: seq<CacheLine>, start: nat, n: nat, tag: nat, value: bv64, rnd: nat)
    requires start + n <= |L| && n >= 1
    ensures var el := ChosenLine(L, start, n, tag, rnd);
      var M := Place(L, start, n, tag, value, rnd, tag);
      M[start + el] == CacheLine(tag, value) && Lookup(M, start, n, tag, 0) == Some(el)
  {
    var el := ChosenLine(L, start, n, tag, rnd);
    var M := Place(L, start, n, tag, value, rnd, tag);
    assert forall i | 0 <= i < |L| && i != start + el :: M[i] == L[i];
    LookupFindsFirst(M, start, n, tag, el);
  }

  lemma LookupFindsFirst(M: seq<CacheLine>, start: nat, n: nat, tag: nat, el: nat)
    requires start + n <= |M| && el < n && M[start + el].tag == tag
    requires forall i | start <= i < start + el :: M[i].tag != tag
    ensures Lookup(M, start, n, tag, 0) == Some(el)
  {
  }

  /** As written, a line push_line replaces carries the tag minus one, so find
      of the address pushed misses it right away. */
  lemma ReplacedLineIsLost(L: seq<CacheLine>, setNum: nat, n: nat, addr: nat, value: bv64, rnd: nat)
    requires setNum >= 1 && n >= 1 && setNum * n <= |L|
    requires FirstFit(L, SetStart(addr, setNum, n), n, TagOf(addr, setNum), 0).None?
    ensures !Found(PushedAsWritten(L, setNum, n, addr, value, rnd), setNum, n, addr).0
  {
    var start := SetStart(addr, setNum, n);
    var tag := TagOf(addr, setNum);
    var M := PushedAsWritten(L, setNum, n, addr, value, rnd);
    assert forall i | start <= i < start + n :: M[i].tag != tag by {
      forall i | start <= i < start + n ensures M[i].tag != tag {
        if i != start + rnd % n {
          assert M[i] == L[i];
        }
      }
    }
    LookupMisses(M, start, n, tag, 0);
  }

  lemma {:induction false} LookupMisses(M: seq<CacheLine>, start: nat, n: nat, tag: nat, el: nat)
    requires start + n <= |M| && el <= n
    requires forall i | start + el <= i < start + n :: M[i].tag != tag
    ensures Lookup(M, start, n, tag, el).None?
    decreases n - el
  {
    if el < n {
      LookupMisses(M, start, n, tag, el + 1);
    }
  }

  /** In a cache of one set of one line holding another address, pushing
      address 0 replaces that line and stores tag 0, so the line it wrote
      reads as empty and find of address 0 misses. */
  lemma ReplacedLineLooksEmpty(L: seq<CacheLine>)
    requires L == [CacheLine(5, 0)]
    ensures PushedAsWritten(L, 1, 1, 0, 7, 0) == [CacheLine(0, 7)]
    ensures !Found(PushedAsWritten(L, 1, 1, 0, 7, 0), 1, 1, 0).0
  {
    ReplacedLineIsLost(L, 1, 1, 0, 7, 0);
  }

  // ---------------------------------------------------------------------------
  // The cache

  class SetAssociativeCache {
    const linesNum: nat
    const linesInSet: nat
    const setNum: nat
    const lines: array<CacheLine>

    ghost predicate Valid()
      reads this
    {
      linesInSet >= 1 && setNum >= 1 && setNum == linesNum / linesInSet &&
      lines.Length == linesNum && setNum * linesInSet <= linesNum
    }

    /** LinesNum lines, all empty; LinesNum / LinesInSet sets. */
    constructor(linesNum: nat, linesInSet: nat)
      requires linesInSet >= 1 && linesNum >= linesInSet
      ensures Valid() && this.linesNum == linesNum && this.linesInSet == linesInSet
      ensures fresh(lines) && forall i | 0 <= i < lines.Length :: lines[i] == EMPTY_LINE
    {
      this.linesNum := linesNum;
      this.linesInSet := linesInSet;
      setNum := linesNum / linesInSet;
      lines := new CacheLine[linesNum](_ => EMPTY_LINE);
    }

    /** push_line: the address must be the start of a 64-bit line. */
    method PushLine(addr: nat, value: bv64, rnd: nat)
      requires Valid() && addr < ADDRESS_MODULUS && addr % LINE_BITS == 0
      modifies lines
      ensures lines[..] == Pushed(old(lines[..]), setNum, linesInSet, addr, value, rnd)
    {
      ghost var L := lines[..];
      var start := SetStart(addr, setNum, linesInSet);
      var tag := TagOf(addr, setNum);
      var el := 0;
      while el < linesInSet
        invariant el <= linesInSet && lines[..] == L
        invariant FirstFit(L, start, linesInSet, tag, el) == FirstFit(L, start, linesInSet, tag, 0)
      {
        if lines[start + el].tag == 0 || lines[start + el].tag == tag {
          lines[start + el] := CacheLine(tag, value);
          return;
        }
        el := el + 1;
      }
      lines[start + rnd % linesInSet] := CacheLine(tag, value);
    }

    /** find reads the lines and changes nothing. */
    method Find(addr: nat) returns (found: bool, value: bv8)
      requires Valid()
      ensures (found, value) == Found(lines[..], setNum, linesInSet, addr)
    {
      var offset := Offset(addr);
      var start := SetStart(addr, setNum, linesInSet);
      var tag := TagOf(addr, setNum);
      ghost var L := lines[..];
      var el := 0;
      while el < linesInSet
        invariant el <= linesInSet
        invariant Lookup(L, start, linesInSet, tag, el) == Lookup(L, start, linesInSet, tag, 0)
      {
        if lines[start + el].tag == tag {
          return true, LineBits(lines[start + el].value, offset);
        }
        el := el + 1;
      }
      return false, 0;
    }
  }
}
