/**
 * How the coordinator cuts a file into one contiguous fragment per storage
 * node, and how the fragments are named. For a file of S bytes and N nodes,
 * fragments 0..N-2 carry S / N bytes and fragment N-1 the rest; fragment i
 * is called `fileName + ".part" + i` and lives on node i.
 */
module Fragmentation {
  import opened Sequences
  import opened JavaString
  import opened DataStreams

  /** Java's long division, which truncates toward zero. */
  function JavaDiv(a: int, b: int): int
    requires b > 0
  {
    if a >= 0 then a / b else -((-a) / b)
  }

  /** distributeFile's bytesToSend for fragment i of a file of fileSize bytes on n nodes. */
  function FragmentLength(fileSize: int, n: nat, i: nat): int
    requires 1 <= n && i < n
  {
    var fragmentSize := JavaDiv(fileSize, n);
    if i == n - 1 then fileSize - i * fragmentSize else fragmentSize
  }

  /** The declared sizes of all fragments, in node order. */
  function PlanSizes(fileSize: int, n: nat): (sizes: seq<int>)
    requires n >= 1
    ensures |sizes| == n
    ensures forall i :: 0 <= i < n ==> sizes[i] == FragmentLength(fileSize, n, i)
  {
    seq(n, i requires 0 <= i < n => FragmentLength(fileSize, n, i))
  }

  function SumInts(s: seq<int>): int {
    if s == [] then 0 else SumInts(s[..|s| - 1]) + s[|s| - 1]
  }

  lemma {:induction false} SumIntsFirst(s: seq<int>)
    requires s != []
    ensures SumInts(s) == s[0] + SumInts(s[1..])
    decreases |s|
  {
    if |s| > 1 {
      var init := s[..|s| - 1];
      SumIntsFirst(init);
      assert init[1..] == s[1..][..|s| - 2];
    }
  }

  /** Fragment boundaries stay inside the file: fragment i starts at i * (S / N). */
  lemma PlanBounds(fileSize: nat, n: nat, i: nat)
    requires 1 <= n && i < n
    ensures 0 <= i * (fileSize / n)
    ensures (i + 1) * (fileSize / n) <= fileSize
  {
    var fs := fileSize / n;
    assert n * fs <= fileSize;
    assert (i + 1) * fs <= n * fs by {
      MultiplyMonotonic(i + 1, n, fs);
    }
  }

  lemma MultiplyMonotonic(a: nat, b: nat, c: nat)
    requires a <= b
    ensures a * c <= b * c
  {
  }

  lemma {:induction false} PrefixSum(fileSize: nat, n: nat, k: nat)
    requires 1 <= n && k <= n - 1
    ensures SumInts(PlanSizes(fileSize, n)[..k]) == k * (fileSize / n)
  {
    if k > 0 {
      var sizes := PlanSizes(fileSize, n);
      assert sizes[..k][..k - 1] == sizes[..k - 1];
      PrefixSum(fileSize, n, k - 1);
    }
  }

  /**
   * For a file of S >= 0 bytes: fragments 0..N-2 get S / N bytes, the last
   * gets the remainder, no size is negative and the sizes add up to S.
   */
  lemma FragmentPlanCoversFile(fileSize: nat, n: nat)
    requires n >= 1
    ensures forall i :: 0 <= i < n - 1 ==> FragmentLength(fileSize, n, i) == fileSize / n
    ensures FragmentLength(fileSize, n, n - 1) == fileSize - (n - 1) * (fileSize / n)
    ensures forall i :: 0 <= i < n ==> FragmentLength(fileSize, n, i) >= 0
    ensures SumInts(PlanSizes(fileSize, n)) == fileSize
  {
    var sizes := PlanSizes(fileSize, n);
    PlanBounds(fileSize, n, n - 1);
    PrefixSum(fileSize, n, n - 1);
    assert sizes[..n] == sizes;
  }

  /** The plan for a file of S >= 0 bytes: no negative size, and the sizes add up to S. */
  lemma PlanSumsToFile(fileSize: nat, n: nat)
    requires n >= 1
    ensures forall k :: 0 <= k < n ==> PlanSizes(fileSize, n)[k] >= 0
    ensures SumInts(PlanSizes(fileSize, n)) == fileSize
  {
    FragmentPlanCoversFile(fileSize, n);
  }

  /** Every declared fragment size lies between 0 and the declared file size, so it is a long again. */
  lemma FragmentLengthIsLong(fileSize: int, n: nat, i: nat)
    requires 1 <= n && i < n
    ensures fileSize >= 0 ==> 0 <= FragmentLength(fileSize, n, i) <= fileSize
    ensures fileSize < 0 ==> fileSize <= FragmentLength(fileSize, n, i) <= 0
  {
    var m: nat := if fileSize >= 0 then fileSize else -fileSize;
    var q := m / n;
    QuotientBounds(m, n);
    var p := i * q;
    ShareBounds(i, n, q, m);
    if fileSize >= 0 {
      assert JavaDiv(fileSize, n) == q;
    } else {
      assert JavaDiv(fileSize, n) == -q;
      assert i * (-q) == -p;
    }
  }

  lemma QuotientBounds(m: nat, n: nat)
    requires n >= 1
    ensures n * (m / n) <= m && m / n <= m
  {
    MultiplyMonotonic(1, n, m / n);
  }

  lemma ShareBounds(i: nat, n: nat, q: nat, m: nat)
    requires i < n && n * q <= m
    ensures 0 <= i * q <= m
  {
    MultiplyMonotonic(i, n, q);
  }

  /** Where fragment i starts in the file: i * (S / N). */
  function FragmentStart(fileSize: nat, n: nat, i: nat): (start: nat)
    requires 1 <= n && i < n
    ensures start <= fileSize
  {
    PlanBounds(fileSize, n, i);
    i * (fileSize / n)
  }

  /** The bytes of `data` that fragment i carries. */
  function Fragment(data: Bytes, n: nat, i: nat): (f: Bytes)
    requires 1 <= n && i < n
    ensures |f| == FragmentLength(|data|, n, i)
  {
    var fs := |data| / n;
    PlanBounds(|data|, n, i);
    PlanBounds(|data|, n, n - 1);
    data[i * fs .. if i == n - 1 then |data| else i * fs + fs]
  }

  /** Fragment i is the slice of the file from its start up to the start of fragment i + 1, or to the end for the last one. */
  lemma FragmentSlices(data: Bytes, n: nat, i: nat)
    requires 1 <= n && i < n
    ensures var start := FragmentStart(|data|, n, i);
      var end := if i < n - 1 then FragmentStart(|data|, n, i + 1) else |data|;
      && start + FragmentLength(|data|, n, i) == end <= |data|
      && Fragment(data, n, i) == data[start..end]
  {
    var fs := |data| / n;
    PlanBounds(|data|, n, i);
    NextMultiple(i, fs);
  }

  function Fragments(data: Bytes, n: nat): (frags: seq<Bytes>)
    requires n >= 1
    ensures |frags| == n
  {
    seq(n, i requires 0 <= i < n => Fragment(data, n, i))
  }

  /** The fragments written one after another, as assembleFile appends them to its output file. */
  function Concat(parts: seq<Bytes>): Bytes {
    if parts == [] then [] else Concat(parts[..|parts| - 1]) + parts[|parts| - 1]
  }

  /** Concatenating one more part appends it. */
  lemma ConcatNext(parts: seq<Bytes>, i: nat)
    requires i < |parts|
    ensures Concat(parts[..i + 1]) == Concat(parts[..i]) + parts[i]
  {
    assert parts[..i + 1][..i] == parts[..i];
  }

  lemma {:induction false} ConcatPrefix(data: Bytes, n: nat, k: nat)
    requires 1 <= n && k <= n - 1
    ensures Concat(Fragments(data, n)[..k]) == data[..FragmentStart(|data|, n, k)]
  {
    if k > 0 {
      var frags := Fragments(data, n);
      FragmentSlices(data, n, k - 1);
      ConcatNext(frags[..k], k - 1);
      PrefixOfPrefix(frags, k - 1, k);
      ConcatPrefix(data, n, k - 1);
      AdjacentSlices(data, FragmentStart(|data|, n, k - 1), FragmentStart(|data|, n, k));
    }
  }

  lemma NextMultiple(j: nat, fs: nat)
    ensures j * fs + fs == (j + 1) * fs
  {
  }

  /** Reassembling the fragments in index order gives back the original bytes. */
  lemma ConcatFragments(data: Bytes, n: nat)
    requires n >= 1
    ensures Concat(Fragments(data, n)) == data
  {
    var frags := Fragments(data, n);
    ConcatPrefix(data, n, n - 1);
    FragmentSlices(data, n, n - 1);
    ConcatNext(frags, n - 1);
    assert frags[..n] == frags;
    AdjacentSlices(data, FragmentStart(|data|, n, n - 1), |data|);
    assert data[..|data|] == data;
  }

  // ---------------------------------------------------------------- names

  /** `fileName + ".part" + i`. */
  function FragmentName(fileName: string, i: nat): string {
    fileName + ".part" + Decimal(i)
  }

  /** The names java.io.File resolves to a directory inside a directory: the directory itself, "." and "..". */
  predicate DirectoryAlias(name: string) {
    |name| == 0 || (|name| <= 2 && name[0] == '.' && name[|name| - 1] == '.')
  }

  /** A name that denotes a regular file directly inside a directory, which a file stream can open. */
  predicate PlainFileName(name: string) {
    !DirectoryAlias(name) && '/' !in name
  }

  /**
   * Every fragment name of the file on n nodes can be sent and read back as
   * a wire string, and the file name reaches into no subdirectory.
   */
  predicate NamesFit(fileName: string, n: nat) {
    && IsWireName(fileName) && '/' !in fileName
    && forall i :: 0 <= i < n ==> IsWireName(FragmentName(fileName, i))
  }

  /**
   * A fragment name is never a directory alias (it is at least six
   * characters long), and it is a plain file name exactly when the file
   * name holds no '/'.
   */
  lemma FragmentNamePlain(fileName: string, i: nat)
    ensures !DirectoryAlias(FragmentName(fileName, i))
    ensures PlainFileName(FragmentName(fileName, i)) <==> '/' !in fileName
  {
    var s := FragmentName(fileName, i);
    assert |s| >= 6;
    if '/' in fileName {
      var k :| 0 <= k < |fileName| && fileName[k] == '/';
      assert s[k] == '/';
    } else {
      forall p | 0 <= p < |s| ensures s[p] != '/' {
        if p < |fileName| {
          assert s[p] == fileName[p];
        } else if p < |fileName| + 5 {
          assert s[p] == ".part"[p - |fileName|];
        } else {
          assert s[p] == Decimal(i)[p - |fileName| - 5];
          assert IsDigit(Decimal(i)[p - |fileName| - 5]);
        }
      }
    }
  }

  /** The last fragment name is the longest one, so it alone decides whether they all fit. */
  lemma NamesFitFromLast(fileName: string, n: nat)
    requires IsWireName(fileName) && '/' !in fileName && n >= 1 && |FragmentName(fileName, n - 1)| <= UTF_MAX
    ensures NamesFit(fileName, n)
  {
    forall i | 0 <= i < n ensures IsWireName(FragmentName(fileName, i)) {
      DecimalLengthMonotonic(i, n - 1);
      var s := FragmentName(fileName, i);
      forall k | 0 <= k < |s| ensures 0 < s[k] as int < 0x80 {
        if k < |fileName| {
          assert s[k] == fileName[k];
        } else if k < |fileName| + 5 {
          assert s[k] == ".part"[k - |fileName|];
        } else {
          assert s[k] == Decimal(i)[k - |fileName| - 5];
        }
      }
    }
  }

  /** After the file name itself, the only '.' of a fragment name is the one of ".part". */
  lemma OnlyDotAfterName(fileName: string, i: nat, p: nat)
    requires |fileName| < p < |FragmentName(fileName, i)|
    ensures FragmentName(fileName, i)[p] != '.'
  {
    var s := FragmentName(fileName, i);
    var k := p - |fileName|;
    if k < 5 {
      assert s[p] == ".part"[k];
    } else {
      assert s[p] == Decimal(i)[k - 5];
    }
  }

  /**
   * Two fragment names are equal only for the same file and the same index,
   * so fragments of different files or different indices never overwrite
   * each other on a node.
   */
  lemma FragmentNameInjective(f1: string, i1: nat, f2: string, i2: nat)
    requires FragmentName(f1, i1) == FragmentName(f2, i2)
    ensures f1 == f2 && i1 == i2
  {
    var s := FragmentName(f1, i1);
    if |f1| < |f2| {
      assert s[|f2|] == '.';
      OnlyDotAfterName(f1, i1, |f2|);
    } else if |f2| < |f1| {
      assert s[|f1|] == '.';
      OnlyDotAfterName(f2, i2, |f1|);
    } else {
      assert f1 == s[..|f1|] == f2;
      assert Decimal(i1) == s[|f1| + 5..] == Decimal(i2);
      DecimalInjective(i1, i2);
    }
  }

  /** 10000 bytes on three nodes: two fragments of 3333 bytes and a last one of 3334. */
  lemma TenThousandBytesOnThreeNodes()
    ensures PlanSizes(10000, 3) == [3333, 3333, 3334]
    ensures FragmentName("a.txt", 2) == "a.txt.part2"
  {
  }
}
