/** The flash-dump repair script (backup/fix_backup_order.py). A 4 MB dump
    was taken as 16 chunk files `part_0.bin` .. `part_15.bin` and joined
    with `cat part_*.bin`, whose glob expands in lexicographic order, so
    `part_10.bin` landed before `part_2.bin`. The script rebuilds the
    lexicographic order, inverts it and copies every chunk back to its
    own offset. File reading and writing and the mapping printout are not
    modelled: the dump is a parameter and the repaired image the result. */
module BackupOrder {
  import opened Ints

  /** The dump's geometry: total size, chunk size, and the number of chunk
      files the dump was taken in. */
  datatype Layout = Layout(flashSize: int, chunkSize: int, chunks: int)
  {
    /** `flash_size // chunk_size`; Python's floor division agrees with
        Dafny's for a positive divisor. */
    function ChunkCount(): (r: int)
      requires chunkSize > 0
      ensures r * chunkSize <= flashSize < (r + 1) * chunkSize
    {
      flashSize / chunkSize
    }
  }

  const FLASH_SIZE := 0x400000
  const CHUNK_SIZE := 0x40000
  const CHUNKS := 16

  /** The layout the script uses: its dataclass defaults. */
  const DEFAULT_LAYOUT := Layout(FLASH_SIZE, CHUNK_SIZE, CHUNKS)

  /** The defaults agree with each other: the chunk count derived from the
      sizes is the declared number of chunks, and the chunks tile the flash
      exactly. */
  lemma LayoutConsistent()
    ensures DEFAULT_LAYOUT.ChunkCount() == DEFAULT_LAYOUT.chunks == 16
    ensures DEFAULT_LAYOUT.chunks * DEFAULT_LAYOUT.chunkSize == DEFAULT_LAYOUT.flashSize
  {
  }

  // ---------------------------------------------------------------------
  // File names and their order.

  /** `range(n)`. */
  function Range(n: int): (r: seq<nat>)
    ensures |r| == if n < 0 then 0 else n
    ensures forall i :: 0 <= i < |r| ==> r[i] == i
  {
    seq(if n < 0 then 0 else n, i => i)
  }

  function Digit(d: int): (c: char)
    requires 0 <= d < 10
    ensures '0' <= c <= '9'
  {
    (48 + d) as char
  }

  /** `str(i)` for a non-negative integer: its decimal digits, without
      padding. */
  function Decimal(i: nat): (s: string)
    ensures 1 <= |s|
    ensures |s| == 1 <==> i < 10
    ensures forall k :: 0 <= k < |s| ==> '0' <= s[k] <= '9'
  {
    if i < 10 then [Digit(i)] else Decimal(i / 10) + [Digit(i % 10)]
  }

  /** Distinct numbers have distinct decimal forms. */
  lemma {:induction false} DecimalInjective(i: nat, j: nat)
    requires Decimal(i) == Decimal(j)
    ensures i == j
    decreases i
  {
    if i >= 10 && j >= 10 {
      var a, b := Decimal(i), Decimal(j);
      assert a[..|a| - 1] == Decimal(i / 10) && b[..|b| - 1] == Decimal(j / 10);
      DecimalInjective(i / 10, j / 10);
      assert Digit(i % 10) == a[|a| - 1] == b[|b| - 1] == Digit(j % 10);
    }
  }

  /** The file name of chunk `i`: `f"part_{i}.bin"`. */
  function Key(i: nat): string {
    "part_" + Decimal(i) + ".bin"
  }

  lemma KeyInjective(i: nat, j: nat)
    requires Key(i) == Key(j)
    ensures i == j
  {
    var a, b := Key(i), Key(j);
    assert a[5..|a| - 4] == Decimal(i);
    assert b[5..|b| - 4] == Decimal(j);
    DecimalInjective(i, j);
  }

  /** Python's `<` on strings: code point by code point, a proper prefix
      first. */
  predicate LexLess(a: string, b: string)
    decreases |a|
  {
    if |a| == 0 then |b| > 0
    else if |b| == 0 then false
    else if a[0] != b[0] then a[0] < b[0]
    else LexLess(a[1..], b[1..])
  }

  lemma {:induction false} LexIrreflexive(a: string)
    ensures !LexLess(a, a)
    decreases |a|
  {
    if |a| > 0 {
      LexIrreflexive(a[1..]);
    }
  }

  lemma {:induction false} LexTransitive(a: string, b: string, c: string)
    requires LexLess(a, b) && LexLess(b, c)
    ensures LexLess(a, c)
    decreases |a|
  {
    if |a| > 0 && |b| > 0 && |c| > 0 && a[0] == b[0] == c[0] {
      LexTransitive(a[1..], b[1..], c[1..]);
    }
  }

  /** Distinct strings are ordered one way or the other. */
  lemma {:induction false} LexTotal(a: string, b: string)
    requires a != b
    ensures LexLess(a, b) || LexLess(b, a)
    decreases |a|
  {
    if |a| > 0 && |b| > 0 && a[0] == b[0] {
      assert a == [a[0]] + a[1..] && b == [b[0]] + b[1..];
      LexTotal(a[1..], b[1..]);
    }
  }

  lemma {:induction false} LexAsymmetric(a: string, b: string)
    requires LexLess(a, b)
    ensures !LexLess(b, a)
    decreases |a|
  {
    if |a| > 0 && |b| > 0 && a[0] == b[0] {
      LexAsymmetric(a[1..], b[1..]);
    }
  }

  /** A common prefix does not change the comparison. */
  lemma {:induction false} LexCommonPrefix(p: string, a: string, b: string)
    ensures LexLess(p + a, p + b) == LexLess(a, b)
    decreases |p|
  {
    if |p| > 0 {
      assert (p + a)[1..] == p[1..] + a && (p + b)[1..] == p[1..] + b;
      LexCommonPrefix(p[1..], a, b);
    } else {
      assert p + a == a && p + b == b;
    }
  }

  /** Chunk indices ordered strictly by file name. */
  predicate KeySorted(s: seq<nat>) {
    forall i, j :: 0 <= i < j < |s| ==> LexLess(Key(s[i]), Key(s[j]))
  }

  /** Insert `x` before the first element whose name is larger. */
  function InsertByKey(x: nat, s: seq<nat>): (r: seq<nat>)
    ensures multiset(r) == multiset(s) + multiset{x}
  {
    if s == [] then [x]
    else if LexLess(Key(x), Key(s[0])) then [x] + s
    else
      assert s == [s[0]] + s[1..];
      [s[0]] + InsertByKey(x, s[1..])
  }

  /** Insertion sort by file name, taking the elements in input order. */
  function SortByKey(s: seq<nat>): (r: seq<nat>)
    ensures multiset(r) == multiset(s)
  {
    if s == [] then []
    else
      assert s == s[..|s| - 1] + [s[|s| - 1]];
      InsertByKey(s[|s| - 1], SortByKey(s[..|s| - 1]))
  }

  lemma {:induction false} InsertKeepsSorted(x: nat, s: seq<nat>)
    requires KeySorted(s) && x !in s
    ensures KeySorted(InsertByKey(x, s))
  {
    if s != [] && !LexLess(Key(x), Key(s[0])) {
      assert s[0] != x;
      if Key(s[0]) == Key(x) {
        KeyInjective(s[0], x);
      }
      LexTotal(Key(x), Key(s[0]));
      var rest := s[1..];
      assert KeySorted(rest);
      assert x !in rest;
      InsertKeepsSorted(x, rest);
      var ins := InsertByKey(x, rest);
      var r := [s[0]] + ins;
      forall j | 0 < j < |r|
        ensures LexLess(Key(s[0]), Key(r[j]))
      {
        assert r[j] == ins[j - 1];
        assert r[j] in multiset(ins);
        assert r[j] in multiset(rest) + multiset{x};
        if r[j] != x {
          assert r[j] in rest;
          var m :| 0 <= m < |rest| && rest[m] == r[j];
          assert s[m + 1] == r[j];
        }
      }
      assert KeySorted(r);
    } else if s != [] {
      var r := [x] + s;
      forall j | 0 < j < |r|
        ensures LexLess(Key(x), Key(r[j]))
      {
        if j > 1 {
          assert r[j] == s[j - 1];
          LexTransitive(Key(x), Key(s[0]), Key(s[j - 1]));
        }
      }
    }
  }

  /** A sequence without repeated elements. */
  predicate Distinct(s: seq<int>) {
    forall i, j :: 0 <= i < j < |s| ==> s[i] != s[j]
  }

  lemma {:induction false} SortIsSorted(s: seq<nat>)
    requires Distinct(s)
    ensures KeySorted(SortByKey(s))
    decreases |s|
  {
    if s != [] {
      var init, x := s[..|s| - 1], s[|s| - 1];
      SortIsSorted(init);
      assert Distinct(init);
      assert x !in init by {
        forall k | 0 <= k < |init|
          ensures init[k] != x
        {
          assert init[k] == s[k];
        }
      }
      assert x !in multiset(SortByKey(init));
      InsertKeepsSorted(x, SortByKey(init));
    }
  }

  /** `lexicographic_cat_order(chunks)`: the chunk indices `0 .. chunks-1`
      in the order the shell glob lists their files. */
  function LexicographicCatOrder(chunks: int): (r: seq<nat>)
    ensures multiset(r) == multiset(Range(chunks))
    ensures KeySorted(r)
  {
    SortIsSorted(Range(chunks));
    SortByKey(Range(chunks))
  }

  /** Two name-sorted sequences with the same elements start alike. */
  lemma SortedFirst(a: seq<nat>, b: seq<nat>)
    requires KeySorted(a) && KeySorted(b) && a != [] && b != []
    requires a[0] in b && b[0] in a
    ensures a[0] == b[0]
  {
    if a[0] != b[0] {
      var i :| 0 <= i < |a| && a[i] == b[0];
      var j :| 0 <= j < |b| && b[j] == a[0];
      assert LexLess(Key(a[0]), Key(a[i]));
      LexAsymmetric(Key(a[0]), Key(b[0]));
    }
  }

  lemma SortedTail(s: seq<nat>)
    requires KeySorted(s) && s != []
    ensures KeySorted(s[1..])
  {
    var t := s[1..];
    forall i, j | 0 <= i < j < |t|
      ensures LexLess(Key(t[i]), Key(t[j]))
    {
      assert t[i] == s[i + 1] && t[j] == s[j + 1];
    }
  }

  /** Removing the same first element leaves equal multisets. */
  lemma SameTails(a: seq<nat>, b: seq<nat>)
    requires a != [] && b != [] && a[0] == b[0] && multiset(a) == multiset(b)
    ensures multiset(a[1..]) == multiset(b[1..])
  {
    assert a == [a[0]] + a[1..] && b == [b[0]] + b[1..];
    calc {
      multiset(a[1..]);
      multiset(a) - multiset{a[0]};
      multiset(b) - multiset{b[0]};
      multiset(b[1..]);
    }
  }

  /** Two name-sorted sequences with the same elements are equal: the
      order is fully determined by the names. */
  lemma {:induction false} SortedUnique(a: seq<nat>, b: seq<nat>)
    requires KeySorted(a) && KeySorted(b) && multiset(a) == multiset(b)
    ensures a == b
    decreases |a|
  {
    if a != [] {
      assert |b| == |multiset(b)| == |multiset(a)| == |a|;
      assert a[0] in multiset(b) && b[0] in multiset(a);
      SortedFirst(a, b);
      SameTails(a, b);
      SortedTail(a);
      SortedTail(b);
      SortedUnique(a[1..], b[1..]);
    }
  }

  /** The glob order of the 16 chunk files of the dump. */
  const CAT_ORDER_16: seq<nat> := [0, 1, 10, 11, 12, 13, 14, 15, 2, 3, 4, 5, 6, 7, 8, 9]

  /** The position of chunk `c < 16` in the glob order. */
  function GlobRank(c: nat): (r: nat)
    requires c < 16
    ensures r < 16
  {
    if c < 2 then c else if c < 10 then c + 6 else c - 8
  }

  /** `str(c) + ".bin"`, the part of a chunk's name after `part_`. */
  function Tail(c: nat): string {
    Decimal(c) + ".bin"
  }

  /** The two-digit names below 16 start with '1'. */
  lemma TeenDecimal(c: nat)
    requires 10 <= c < 16
    ensures Decimal(c) == ['1', Digit(c - 10)]
  {
    assert Decimal(c / 10) == ['1'];
  }

  /** Names of chunks below 16 compare as their glob ranks do. */
  lemma KeyLessByRank(a: nat, b: nat)
    requires a < 16 && b < 16 && GlobRank(a) < GlobRank(b)
    ensures LexLess(Key(a), Key(b))
  {
    LexCommonPrefix("part_", Tail(a), Tail(b));
    assert Key(a) == "part_" + Tail(a) && Key(b) == "part_" + Tail(b);
    var s, t := Tail(a), Tail(b);
    if a >= 10 {
      TeenDecimal(a);
      assert s[0] == '1' && s[1..] == [Digit(a - 10)] + ".bin";
    } else {
      assert s[0] == Digit(a) && s[1..] == ".bin";
    }
    if b >= 10 {
      TeenDecimal(b);
      assert t[0] == '1' && t[1..] == [Digit(b - 10)] + ".bin";
    } else {
      assert t[0] == Digit(b) && t[1..] == ".bin";
    }
    if a >= 10 && b >= 10 {
      assert s[1..][0] < t[1..][0];
    }
  }

  /** The glob order lists the names in increasing order. */
  lemma CatOrder16Sorted()
    ensures KeySorted(CAT_ORDER_16)
  {
    forall i | 0 <= i < 16
      ensures GlobRank(CAT_ORDER_16[i]) == i
    {
    }
    forall i, j | 0 <= i < j < 16
      ensures LexLess(Key(CAT_ORDER_16[i]), Key(CAT_ORDER_16[j]))
    {
      KeyLessByRank(CAT_ORDER_16[i], CAT_ORDER_16[j]);
    }
  }

  /** A chunk occurs at most once in a name-sorted sequence. */
  lemma {:induction false} SortedCount(s: seq<nat>, v: nat)
    requires KeySorted(s)
    ensures multiset(s)[v] == if v in s then 1 else 0
    decreases |s|
  {
    if s != [] {
      assert s == [s[0]] + s[1..];
      assert KeySorted(s[1..]);
      SortedCount(s[1..], v);
      if v == s[0] && v in s[1..] {
        var j :| 0 <= j < |s[1..]| && s[1..][j] == v;
        assert s[j + 1] == s[0];
        LexIrreflexive(Key(v));
      }
    }
  }

  /** Name-sorted sequences with the same members hold them equally
      often. */
  lemma SortedSameMembers(a: seq<nat>, b: seq<nat>)
    requires KeySorted(a) && KeySorted(b)
    requires forall v :: v in a <==> v in b
    ensures multiset(a) == multiset(b)
  {
    forall v: nat
      ensures multiset(a)[v] == multiset(b)[v]
    {
      SortedCount(a, v);
      SortedCount(b, v);
    }
    forall v: int | v < 0
      ensures multiset(a)[v] == multiset(b)[v]
    {
      assert v !in a && v !in b;
    }
  }

  /** The 16 chunks, in any arrangement, are the members of the glob
      order. */
  lemma CatOrder16Members(r: seq<int>)
    requires |r| == 16 && IsPermutation(r)
    ensures forall v :: v in r <==> v in CAT_ORDER_16
  {
    forall v
      ensures v in r <==> v in CAT_ORDER_16
    {
      if v in r {
        var i :| 0 <= i < |r| && r[i] == v;
      }
    }
  }

  /** The order of the 16 chunk files of the dump: `part_10.bin` ..
      `part_15.bin` come between `part_1.bin` and `part_2.bin`. */
  lemma CatOrderOf16()
    ensures LexicographicCatOrder(16) == CAT_ORDER_16
  {
    var r := LexicographicCatOrder(16);
    CatOrder16Sorted();
    CatOrderIsPermutation(16);
    CatOrder16Members(r);
    SortedSameMembers(r, CAT_ORDER_16);
    SortedUnique(r, CAT_ORDER_16);
  }

  // ---------------------------------------------------------------------
  // Inverting the order.

  datatype Option<T> = None | Some(value: T)

  /** The list slot a Python index `v` names in a list of length `n`:
      a negative index counts from the end. */
  function Slot(v: int, n: int): int {
    if v < 0 then v + n else v
  }

  /** Every entry is an index Python accepts into a list as long as
      `order`; any other entry raises `IndexError`. */
  predicate Indexable(order: seq<int>) {
    forall p :: 0 <= p < |order| ==> -|order| <= order[p] < |order|
  }

  /** Each of `0 .. |s|-1` exactly once. */
  predicate IsPermutation(s: seq<int>) {
    && (forall i :: 0 <= i < |s| ==> 0 <= s[i] < |s|)
    && (forall c :: 0 <= c < |s| ==> c in s)
    && Distinct(s)
  }

  /** The last position `p < k` whose entry names slot `c`, or 0 when
      there is none: the value `pos_of_chunk[c]` holds after the first `k`
      writes, later writes overwriting earlier ones. */
  function LastIndex(order: seq<int>, c: int, k: nat): (r: nat)
    requires k <= |order|
    ensures k == 0 ==> r == 0
    ensures 0 < k ==> r < k
    ensures forall q :: r < q < k ==> Slot(order[q], |order|) != c
    ensures || (0 < k && Slot(order[r], |order|) == c)
            || (r == 0 && forall q :: 0 <= q < k ==> Slot(order[q], |order|) != c)
  {
    if k == 0 then 0
    else if Slot(order[k - 1], |order|) == c then k - 1
    else LastIndex(order, c, k - 1)
  }

  /** What `invert_order` returns when no index fails. */
  function Inverse(order: seq<int>): (pos: seq<nat>)
    ensures |pos| == |order|
  {
    seq(|order|, c requires 0 <= c < |order| => LastIndex(order, c, |order|))
  }

  /** `invert_order`: `pos_of_chunk[chunk_index] = pos` for every position,
      in order. An entry Python cannot index with raises, and no list is
      returned. */
  method InvertOrder(order: seq<int>) returns (r: Option<seq<nat>>)
    ensures r.Some? <==> Indexable(order)
    ensures r.Some? ==> r.value == Inverse(order)
  {
    var n := |order|;
    var posOfChunk := new nat[n](_ => 0);
    for p := 0 to n
      invariant forall c :: 0 <= c < n ==> posOfChunk[c] == LastIndex(order, c, p)
      invariant forall q :: 0 <= q < p ==> -n <= order[q] < n
    {
      var chunkIndex := order[p];
      if chunkIndex < -n || n <= chunkIndex {
        return None;
      }
      posOfChunk[Slot(chunkIndex, n)] := p;
    }
    assert posOfChunk[..] == Inverse(order);
    return Some(posOfChunk[..]);
  }

  /** The glob order lists every chunk exactly once. */
  lemma CatOrderIsPermutation(chunks: int)
    ensures |LexicographicCatOrder(chunks)| == |Range(chunks)|
    ensures IsPermutation(LexicographicCatOrder(chunks))
  {
    var r, all := LexicographicCatOrder(chunks), Range(chunks);
    calc {
      |r|;
      |multiset(r)|;
      |multiset(all)|;
      |all|;
    }
    forall i | 0 <= i < |r|
      ensures 0 <= r[i] < |r|
    {
      assert r[i] in multiset(all);
      var k :| 0 <= k < |all| && all[k] == r[i];
    }
    forall c | 0 <= c < |r|
      ensures c in r
    {
      assert all[c] == c;
      assert c in multiset(r);
    }
    forall i, j | 0 <= i < j < |r|
      ensures r[i] != r[j]
    {
      if r[i] == r[j] {
        LexIrreflexive(Key(r[i]));
      }
    }
  }

  /** For a permutation, `invert_order` computes the inverse permutation:
      the chunk at position `p` is found at `pos[order[p]] == p`, and
      position `pos[c]` holds chunk `c`. */
  lemma InverseOfPermutation(order: seq<int>)
    requires IsPermutation(order)
    ensures Indexable(order)
    ensures IsPermutation(Inverse(order))
    ensures forall p :: 0 <= p < |order| ==> Inverse(order)[order[p]] == p
    ensures forall c :: 0 <= c < |order| ==> order[Inverse(order)[c]] == c
  {
    var n, pos := |order|, Inverse(order);
    forall p | 0 <= p < n
      ensures pos[order[p]] == p
    {
      InverseFindsPosition(order, p);
    }
    forall c | 0 <= c < n
      ensures order[pos[c]] == c
    {
      assert c in order;
      var p :| 0 <= p < n && order[p] == c;
      InverseFindsPosition(order, p);
    }
    forall p | 0 <= p < n
      ensures p in pos
    {
      assert pos[order[p]] == p;
    }
    forall c, d | 0 <= c < d < n
      ensures pos[c] != pos[d]
    {
      assert order[pos[c]] == c && order[pos[d]] == d;
    }
  }

  /** The one position holding a chunk is the one the inverse records. */
  lemma InverseFindsPosition(order: seq<int>, p: int)
    requires IsPermutation(order) && 0 <= p < |order|
    ensures Inverse(order)[order[p]] == p
  {
    var r := LastIndex(order, order[p], |order|);
    assert Inverse(order)[order[p]] == r;
    assert order[r] == order[p];
  }

  /** Inverting twice gives the order back. */
  lemma InverseInvolutive(order: seq<int>)
    requires IsPermutation(order)
    ensures Inverse(Inverse(order)) == order
  {
    InverseOfPermutation(order);
    var pos := Inverse(order);
    InverseOfPermutation(pos);
    forall p | 0 <= p < |order|
      ensures Inverse(pos)[p] == order[p]
    {
      assert pos[order[p]] == p;
    }
  }

  // ---------------------------------------------------------------------
  // Reassembly.

  /** What the script ends with: the repaired image, or the size check's
      rejection with the length it found (no image is produced then). */
  datatype Outcome = Fixed(image: seq<uint8>) | WrongSize(got: int)

  /** Byte `k` of chunk `c` sits at `c * CHUNK_SIZE + k`. */
  lemma ChunkSplit(c: int, k: int)
    requires 0 <= k < CHUNK_SIZE
    ensures (c * CHUNK_SIZE + k) / CHUNK_SIZE == c
    ensures (c * CHUNK_SIZE + k) % CHUNK_SIZE == k
  {
  }

  /** An arrangement of the dump's 16 chunks. */
  predicate ChunkPermutation(order: seq<int>) {
    |order| == CHUNKS && IsPermutation(order)
  }

  /** The glob order of the dump's chunk files. */
  function CatOrder(): (order: seq<nat>)
    ensures ChunkPermutation(order)
  {
    CatOrderOf16();
    CatOrderIsPermutation(CHUNKS);
    CAT_ORDER_16
  }

  /** `lexicographic_cat_order(16)` is that order. */
  lemma GlobOrder(chunks: int)
    requires chunks == CHUNKS
    ensures LexicographicCatOrder(chunks) == CatOrder()
  {
    CatOrderOf16();
  }

  /** The image with its chunks rearranged: chunk `c` of the result is
      chunk `from[c]` of `data`. With `from` the glob order this is the
      dump `cat part_*.bin` made of an image; with the inverted order it is
      the image the script writes. */
  function Rearranged(data: seq<uint8>, from: seq<int>): (r: seq<uint8>)
    requires |data| == FLASH_SIZE && ChunkPermutation(from)
    ensures |r| == FLASH_SIZE
  {
    seq(FLASH_SIZE, i requires 0 <= i < FLASH_SIZE =>
      data[from[i / CHUNK_SIZE] * CHUNK_SIZE + i % CHUNK_SIZE])
  }

  /** Byte `k` of chunk `c` of the result is byte `k` of chunk `from[c]`
      of the input. */
  lemma RearrangedAt(data: seq<uint8>, from: seq<int>, c: int, k: int)
    requires |data| == FLASH_SIZE && ChunkPermutation(from)
    requires 0 <= c < CHUNKS && 0 <= k < CHUNK_SIZE
    ensures Rearranged(data, from)[c * CHUNK_SIZE + k] == data[from[c] * CHUNK_SIZE + k]
  {
    ChunkSplit(c, k);
  }

  /** Chunk `c` of the result is chunk `from[c]` of the input, byte for
      byte. */
  lemma RearrangedChunk(data: seq<uint8>, from: seq<int>, c: int)
    requires |data| == FLASH_SIZE && ChunkPermutation(from) && 0 <= c < CHUNKS
    ensures Rearranged(data, from)[c * CHUNK_SIZE..(c + 1) * CHUNK_SIZE]
         == data[from[c] * CHUNK_SIZE..(from[c] + 1) * CHUNK_SIZE]
  {
    var out, src := Rearranged(data, from)[c * CHUNK_SIZE..(c + 1) * CHUNK_SIZE], from[c];
    forall k | 0 <= k < CHUNK_SIZE
      ensures out[k] == data[src * CHUNK_SIZE + k]
    {
      RearrangedAt(data, from, c, k);
    }
  }

  /** Rearranging by `from` and then by `pos` gives the data back when
      `pos` finds every chunk's position in `from`. */
  lemma RearrangeUndone(data: seq<uint8>, from: seq<int>, pos: seq<int>)
    requires |data| == FLASH_SIZE && ChunkPermutation(from) && ChunkPermutation(pos)
    requires forall c :: 0 <= c < CHUNKS ==> from[pos[c]] == c
    ensures Rearranged(Rearranged(data, from), pos) == data
  {
    var once := Rearranged(data, from);
    var back := Rearranged(once, pos);
    forall i | 0 <= i < FLASH_SIZE
      ensures back[i] == data[i]
    {
      var c, k := i / CHUNK_SIZE, i % CHUNK_SIZE;
      RearrangedAt(once, pos, c, k);
      RearrangedAt(data, from, pos[c], k);
    }
  }

  /** Rearranging by the inverse undoes rearranging by the order, in both
      directions: scrambling and repairing are inverse bijections. */
  lemma RearrangeInverse(data: seq<uint8>, order: seq<int>)
    requires |data| == FLASH_SIZE && ChunkPermutation(order)
    ensures ChunkPermutation(Inverse(order))
    ensures Rearranged(Rearranged(data, order), Inverse(order)) == data
    ensures Rearranged(Rearranged(data, Inverse(order)), order) == data
  {
    InverseOfPermutation(order);
    RearrangeUndone(data, order, Inverse(order));
    RearrangeUndone(data, Inverse(order), order);
  }

  /** For each chunk of the image, the position of its file in the glob
      order. */
  function RepairOrder(): (pos: seq<nat>)
    ensures ChunkPermutation(pos)
  {
    InverseOfPermutation(CatOrder());
    Inverse(CatOrder())
  }

  /** The image the script writes for a dump of the right size. */
  function Repaired(blob: seq<uint8>): (image: seq<uint8>)
    requires |blob| == FLASH_SIZE
    ensures |image| == FLASH_SIZE
  {
    Rearranged(blob, RepairOrder())
  }

  /** The round trip: the dump `cat part_*.bin` made of an image repairs
      to that image, and every dump of the right size is the one made of
      its repair. */
  lemma RepairRoundTrip(image: seq<uint8>, blob: seq<uint8>)
    requires |image| == FLASH_SIZE && |blob| == FLASH_SIZE
    ensures Repaired(Rearranged(image, CatOrder())) == image
    ensures Rearranged(Repaired(blob), CatOrder()) == blob
  {
    RearrangeInverse(image, CatOrder());
    RearrangeInverse(blob, CatOrder());
  }

  /** `order = lexicographic_cat_order(layout.chunks)` in `main`. */
  method GlobOrderOf(chunks: int) returns (order: seq<nat>)
    requires chunks == CHUNKS
    ensures order == CatOrder()
  {
    order := LexicographicCatOrder(chunks);
    GlobOrder(chunks);
  }

  /** `order = lexicographic_cat_order(layout.chunks)` followed by
      `pos_of_chunk = invert_order(order)`. */
  method ChunkPositions() returns (posOfChunk: seq<nat>)
    ensures posOfChunk == RepairOrder()
  {
    var order := GlobOrderOf(DEFAULT_LAYOUT.chunks);
    InverseOfPermutation(order);
    var inverted := InvertOrder(order);
    posOfChunk := inverted.value;
  }

  /** One turn of the reassembly loop: chunk `chunkIndex` of the output
      is filled from the dump's chunk at `posOfChunk[chunkIndex]` by the
      slice assignment, byte by byte; the rest of the buffer is left as it
      was. */
  method RestoreChunk(fixed: array<uint8>, blob: seq<uint8>, posOfChunk: seq<nat>, chunkIndex: int)
    requires fixed.Length == |blob| == FLASH_SIZE
    requires ChunkPermutation(posOfChunk) && 0 <= chunkIndex < CHUNKS
    modifies fixed
    ensures forall i :: 0 <= i < FLASH_SIZE && !(chunkIndex * CHUNK_SIZE <= i < (chunkIndex + 1) * CHUNK_SIZE) ==>
      fixed[i] == old(fixed[i])
    ensures forall i :: chunkIndex * CHUNK_SIZE <= i < (chunkIndex + 1) * CHUNK_SIZE ==>
      fixed[i] == Rearranged(blob, posOfChunk)[i]
  {
    ghost var want := Rearranged(blob, posOfChunk);
    var srcPos := posOfChunk[chunkIndex];
    var srcOff := srcPos * CHUNK_SIZE;
    var dstOff := chunkIndex * CHUNK_SIZE;
    for k := 0 to CHUNK_SIZE
      invariant forall i :: 0 <= i < FLASH_SIZE && !(dstOff <= i < dstOff + k) ==> fixed[i] == old(fixed[i])
      invariant forall i :: dstOff <= i < dstOff + k ==> fixed[i] == want[i]
    {
      RearrangedAt(blob, posOfChunk, chunkIndex, k);
      fixed[dstOff + k] := blob[srcOff + k];
    }
  }

  /** The size check, then the reassembly loop of `main`: every chunk of
      the output buffer is filled from the dump's chunk at the position
      the inverted glob order gives. */
  method Reassemble(blob: seq<uint8>) returns (r: Outcome)
    ensures |blob| != FLASH_SIZE ==> r == WrongSize(|blob|)
    ensures |blob| == FLASH_SIZE ==> r == Fixed(Repaired(blob))
  {
    if |blob| != FLASH_SIZE {
      return WrongSize(|blob|);
    }
    var posOfChunk := ChunkPositions();
    var fixed := new uint8[FLASH_SIZE](_ => 0);
    ghost var want := Rearranged(blob, posOfChunk);
    for chunkIndex := 0 to CHUNKS
      invariant forall i :: 0 <= i < chunkIndex * CHUNK_SIZE ==> fixed[i] == want[i]
    {
      RestoreChunk(fixed, blob, posOfChunk, chunkIndex);
    }
    assert fixed[..] == want;
    return Fixed(fixed[..]);
  }
}
