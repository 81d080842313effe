/** The dataset helpers of the BreaKHis classifier: turning an image path into a
    sample name, reading a list of image paths into samples, the glob patterns of
    the two binary classes, inverse-frequency sample weights, and the `BreaKHis`
    dataset object with its length and item access. */
module Tools {
  import opened Python
  import opened Samples

  // ----- alter_name ------------------------------------------------------------

  /** `alter_name(fname)`: `fname.split('\\')[-1].split('.')[0]`. */
  function AlterName(fname: string): (r: string)
    ensures '\\' !in r && '.' !in r
  {
    var parts := Split(fname, '\\');
    var last := parts[|parts| - 1];
    var name := Split(last, '.')[0];
    SplitPiecesFree(fname, '\\');
    SplitPiecesFree(last, '.');
    SplitFirstPiece(last, '.');
    PrefixFree(name, last, '\\');
    name
  }

  lemma PrefixFree(p: string, s: string, ch: char)
    requires p <= s && ch !in s
    ensures ch !in p
  {
    forall i | 0 <= i < |p| ensures p[i] != ch {
      assert p[i] == s[i];
    }
  }

  /** The characters after the last `sep` of `s` (all of `s` if it has none). */
  function LastSegment(s: string, sep: char): string
  {
    if s == [] then []
    else if s[|s| - 1] == sep then []
    else LastSegment(s[..|s| - 1], sep) + [s[|s| - 1]]
  }

  /** The characters before the first `sep` of `s` (all of `s` if it has none). */
  function FirstSegment(s: string, sep: char): string
  {
    if s == [] then []
    else if s[0] == sep then []
    else [s[0]] + FirstSegment(s[1..], sep)
  }

  /** `p` is a final segment of `s`: a `sep`-free suffix preceded by `sep` or by nothing. */
  predicate IsFinalSegment(s: string, p: string, sep: char)
  {
    && |p| <= |s|
    && s[|s| - |p|..] == p
    && sep !in p
    && (|p| == |s| || s[|s| - |p| - 1] == sep)
  }

  /** `p` is an initial segment of `s`: a `sep`-free prefix followed by `sep` or by nothing. */
  predicate IsInitialSegment(s: string, p: string, sep: char)
  {
    && p <= s
    && sep !in p
    && (|p| == |s| || s[|p|] == sep)
  }

  lemma {:induction false} LastSegmentIsFinal(s: string, sep: char)
    ensures IsFinalSegment(s, LastSegment(s, sep), sep)
  {
    if s != [] && s[|s| - 1] != sep {
      var init := s[..|s| - 1];
      LastSegmentIsFinal(init, sep);
      var p := LastSegment(init, sep);
      assert s[|s| - |p| - 1..] == init[|init| - |p|..] + [s[|s| - 1]];
    }
  }

  lemma {:induction false} FirstSegmentIsInitial(s: string, sep: char)
    ensures IsInitialSegment(s, FirstSegment(s, sep), sep)
  {
    if s != [] && s[0] != sep {
      FirstSegmentIsInitial(s[1..], sep);
    }
  }

  /** A string has only one final segment. */
  lemma FinalSegmentUnique(s: string, p: string, q: string, sep: char)
    requires IsFinalSegment(s, p, sep) && IsFinalSegment(s, q, sep)
    ensures p == q
  {
    if |p| < |q| {
      assert false;
    } else if |q| < |p| {
      assert false;
    }
  }

  /** A string has only one initial segment. */
  lemma InitialSegmentUnique(s: string, p: string, q: string, sep: char)
    requires IsInitialSegment(s, p, sep) && IsInitialSegment(s, q, sep)
    ensures p == q
  {
    if |p| < |q| {
      assert false;
    } else if |q| < |p| {
      assert false;
    }
  }

  /** `alter_name` keeps the part of the path after its last backslash and cuts
      that part at its first dot. */
  lemma AlterNameSegments(fname: string)
    ensures AlterName(fname) == FirstSegment(LastSegment(fname, '\\'), '.')
  {
    var parts := Split(fname, '\\');
    var last := parts[|parts| - 1];
    SplitLastPiece(fname, '\\');
    LastSegmentIsFinal(fname, '\\');
    FinalSegmentUnique(fname, last, LastSegment(fname, '\\'), '\\');
    SplitFirstPiece(last, '.');
    FirstSegmentIsInitial(last, '.');
    InitialSegmentUnique(last, Split(last, '.')[0], FirstSegment(last, '.'), '.');
  }

  /** A name `alter_name` returns is left as it is by a second application. */
  lemma AlterNameIdempotent(fname: string)
    ensures AlterName(AlterName(fname)) == AlterName(fname)
  {
    var r := AlterName(fname);
    SplitWithoutSeparator(r, '\\');
    SplitWithoutSeparator(r, '.');
  }

  // ----- binary_paths ----------------------------------------------------------

  /** The two glob patterns of `binary_paths(root, mf)`: benign images first, then
      malignant ones. Below the class directory come three wildcard levels, then the
      magnification directory `mf`, which can be read back from either pattern. */
  function BinaryPatterns(root: string, mf: string): (patterns: (string, string))
    ensures |patterns.0| == |root| + 13 + |mf| + 6 && |patterns.1| == |root| + 16 + |mf| + 6
    ensures patterns.0[..|root| + 7] == root + "benign/"
    ensures patterns.1[..|root| + 10] == root + "malignant/"
    ensures patterns.0[|root| + 7..|root| + 13] == "*/*/*/" && patterns.1[|root| + 10..|root| + 16] == "*/*/*/"
    ensures EndsWith(patterns.0, "/" + mf + "/*.png") && EndsWith(patterns.1, "/" + mf + "/*.png")
    ensures patterns.0[|root| + 13..|patterns.0| - 6] == mf
    ensures patterns.1[|root| + 16..|patterns.1| - 6] == mf
    ensures patterns.0 != patterns.1
  {
    (root + "benign/*/*/*/" + mf + "/*.png", root + "malignant/*/*/*/" + mf + "/*.png")
  }

  // ----- read_images -----------------------------------------------------------

  /** `cv2.imread`, which gives `None` for a file it cannot decode, and `cv2.resize`
      to a (width, height) pair. */
  datatype ImageIO = ImageIO(imread: string -> Option<Image>, resize: (Image, (int, int)) -> Image)

  /** The target size: `imsize` if one is given, otherwise (456, 700). */
  function TargetSize(imsize: Option<(int, int)>): (int, int)
  {
    if imsize.Some? then imsize.value else (456, 700)
  }

  /** The paths ending in `.png`, in their input order. */
  function PngPaths(paths: seq<string>): (r: seq<string>)
    ensures |r| <= |paths|
  {
    if paths == [] then []
    else if EndsWith(paths[|paths| - 1], ".png") then PngPaths(paths[..|paths| - 1]) + [paths[|paths| - 1]]
    else PngPaths(paths[..|paths| - 1])
  }

  /** What `read_images(paths, target, imsize)` returns, or the error it raises: an
      undecodable `.png` file makes `img.shape` fail on `None`. */
  function ReadImagesSpec(paths: seq<string>, target: int, io: ImageIO, imsize: Option<(int, int)>)
    : Result<seq<Sample>>
  {
    if paths == [] then Ok([])
    else
      var path := paths[|paths| - 1];
      var prev := ReadImagesSpec(paths[..|paths| - 1], target, io, imsize);
      if prev.Err? then prev
      else if !EndsWith(path, ".png") then prev
      else if io.imread(path).None? then Err(AttributeError)
      else Ok(prev.value + [Sample(io.resize(io.imread(path).value, TargetSize(imsize)), target, AlterName(path))])
  }

  /** `read_images(path_arr, target, imsize)`. */
  method ReadImages(paths: seq<string>, target: int, io: ImageIO, imsize: Option<(int, int)>)
    returns (r: Result<seq<Sample>>)
    ensures r == ReadImagesSpec(paths, target, io, imsize)
  {
    var resized: seq<Sample> := [];
    for i := 0 to |paths|
      invariant ReadImagesSpec(paths[..i], target, io, imsize) == Ok(resized)
    {
      assert paths[..i + 1][..i] == paths[..i];
      var filename := paths[i];
      if EndsWith(filename, ".png") {
        var img := io.imread(filename);
        if img.None? {
          ReadImagesErrorSticks(paths, i + 1, target, io, imsize);
          return Err(AttributeError);
        }
        var resizedImg := io.resize(img.value, TargetSize(imsize));
        var fname := AlterName(filename);
        resized := resized + [Sample(resizedImg, target, fname)];
      }
    }
    assert paths[..|paths|] == paths;
    return Ok(resized);
  }

  /** Once reading a prefix of the paths fails, reading all of them fails the same way. */
  lemma {:induction false} ReadImagesErrorSticks(paths: seq<string>, n: nat, target: int, io: ImageIO,
                                                imsize: Option<(int, int)>)
    requires n <= |paths| && ReadImagesSpec(paths[..n], target, io, imsize).Err?
    ensures ReadImagesSpec(paths, target, io, imsize) == ReadImagesSpec(paths[..n], target, io, imsize)
  {
    if n < |paths| {
      assert paths[..|paths| - 1][..n] == paths[..n];
      ReadImagesErrorSticks(paths[..|paths| - 1], n, target, io, imsize);
    } else {
      assert paths[..n] == paths;
    }
  }

  /** A path is kept exactly when it ends in `.png` (non-`.png` paths are skipped). */
  lemma {:induction false} PngPathsMembers(paths: seq<string>, p: string)
    ensures p in PngPaths(paths) <==> p in paths && EndsWith(p, ".png")
  {
    if paths != [] {
      var init := paths[..|paths| - 1];
      PngPathsMembers(init, p);
      assert paths == init + [paths[|paths| - 1]];
    }
  }

  /** Every path of `png` can be decoded. */
  predicate AllDecode(png: seq<string>, io: ImageIO)
  {
    forall m :: 0 <= m < |png| ==> io.imread(png[m]).Some?
  }

  /** `read_images` succeeds exactly when every `.png` path decodes, and fails only
      with AttributeError. */
  lemma {:induction false} ReadImagesSucceeds(paths: seq<string>, target: int, io: ImageIO,
                                             imsize: Option<(int, int)>)
    ensures var r := ReadImagesSpec(paths, target, io, imsize);
      && (r.Ok? <==> AllDecode(PngPaths(paths), io))
      && (r.Err? ==> r.error == AttributeError)
  {
    if paths != [] {
      var init, path := paths[..|paths| - 1], paths[|paths| - 1];
      ReadImagesSucceeds(init, target, io, imsize);
      var png, png' := PngPaths(init), PngPaths(paths);
      if EndsWith(path, ".png") {
        assert png' == png + [path];
        if AllDecode(png', io) {
          assert forall m :: 0 <= m < |png| ==> png[m] == png'[m];
        }
        if !AllDecode(png, io) {
          var m :| 0 <= m < |png| && io.imread(png[m]).None?;
          assert png'[m] == png[m];
        }
        assert io.imread(path).None? ==> io.imread(png'[|png|]).None?;
      } else {
        assert png' == png;
      }
    }
  }

  /** When `read_images` succeeds it gives one sample per `.png` path, in path
      order, holding the resized image, the given label and the `alter_name` of the
      path. */
  lemma {:induction false} ReadImagesEntries(paths: seq<string>, target: int, io: ImageIO,
                                            imsize: Option<(int, int)>)
    requires ReadImagesSpec(paths, target, io, imsize).Ok?
    ensures var r := ReadImagesSpec(paths, target, io, imsize).value;
      var png := PngPaths(paths);
      && |r| == |png|
      && forall m :: 0 <= m < |png| ==>
           io.imread(png[m]).Some? &&
           r[m] == Sample(io.resize(io.imread(png[m]).value, TargetSize(imsize)), target, AlterName(png[m]))
  {
    if paths != [] {
      var init, path := paths[..|paths| - 1], paths[|paths| - 1];
      ReadImagesEntries(init, target, io, imsize);
      var png, png' := PngPaths(init), PngPaths(paths);
      if EndsWith(path, ".png") {
        assert png' == png + [path];
      } else {
        assert png' == png;
      }
    }
  }

  // ----- make_weights_for_balanced_classes ---------------------------------------

  /** `len([0] * nclasses)`: a negative repeat count gives an empty list. */
  function ClassCount(nclasses: int): nat
  {
    if nclasses < 0 then 0 else nclasses
  }

  /** The class a sample falls into in a list of `n` class counters: its label, read
      as a Python list index. */
  function ClassOf(s: Sample, n: nat): Option<nat>
  {
    Slot(s.target, n)
  }

  /** The number of samples among `pairs` that fall into class `c`. */
  function Count(pairs: seq<Sample>, n: nat, c: nat): (k: nat)
    ensures k <= |pairs|
  {
    if pairs == [] then 0
    else Count(pairs[..|pairs| - 1], n, c) + (if ClassOf(pairs[|pairs| - 1], n) == Some(c) then 1 else 0)
  }

  /** The counters for classes 0 .. n-1. The ensures only spells out the definition
      element by element, for the verifier. */
  function Counts(pairs: seq<Sample>, n: nat): (cs: seq<nat>)
    ensures |cs| == n && forall c :: 0 <= c < n ==> cs[c] == Count(pairs, n, c)
  {
    seq(n, c requires 0 <= c < n => Count(pairs, n, c))
  }

  function Sum(xs: seq<nat>): nat
  {
    if xs == [] then 0 else Sum(xs[..|xs| - 1]) + xs[|xs| - 1]
  }

  /** Every label is a valid index into the list of class counters. */
  predicate LabelsInRange(pairs: seq<Sample>, n: nat)
  {
    forall i :: 0 <= i < |pairs| ==> ClassOf(pairs[i], n).Some?
  }

  /** Every class has at least one sample. */
  predicate EveryClassOccurs(pairs: seq<Sample>, n: nat)
  {
    forall c :: 0 <= c < n ==> Count(pairs, n, c) > 0
  }

  /** The weights `make_weights_for_balanced_classes(pairs, nclasses)` returns: sample
      `idx` gets the number of samples divided by the size of its class. A label
      outside the counters raises IndexError; an empty class makes the division by
      its count raise ZeroDivisionError. */
  function BalancedWeights(pairs: seq<Sample>, nclasses: int): (r: Result<seq<real>>)
    ensures r.Ok? ==> |r.value| == |pairs|
  {
    var n := ClassCount(nclasses);
    if !LabelsInRange(pairs, n) then Err(IndexError)
    else if !EveryClassOccurs(pairs, n) then Err(ZeroDivisionError)
    else Ok(seq(|pairs|, idx requires 0 <= idx < |pairs| => Weight(pairs, n, idx)))
  }

  /** The weight of sample `idx`: the number of samples over the size of its class. */
  function Weight(pairs: seq<Sample>, n: nat, idx: nat): real
    requires LabelsInRange(pairs, n) && EveryClassOccurs(pairs, n) && idx < |pairs|
  {
    |pairs| as real / Count(pairs, n, ClassOf(pairs[idx], n).value) as real
  }

  /** `make_weights_for_balanced_classes(pairs, nclasses)`: count the samples per
      class, divide the total by each count, and give every sample its class's share. */
  method MakeWeightsForBalancedClasses(pairs: seq<Sample>, nclasses: int) returns (r: Result<seq<real>>)
    ensures r == BalancedWeights(pairs, nclasses)
  {
    var n := ClassCount(nclasses);
    var count, inRange := CountClasses(pairs, n);
    if !inRange {
      return Err(IndexError);
    }
    SumOfCounts(pairs, n);
    var total := Sum(count[..]) as real;
    assert total == |pairs| as real;
    var weightPerClass, nonZero := WeightPerClass(count, total);
    if !nonZero {
      return Err(ZeroDivisionError);
    }
    ghost var counts, perClass := count[..], weightPerClass[..];
    var weight := new real[|pairs|](_ => 0.0);
    for idx := 0 to |pairs|
      invariant count[..] == counts && weightPerClass[..] == perClass
      invariant forall i :: 0 <= i < idx ==> weight[i] == perClass[ClassOf(pairs[i], n).value]
    {
      weight[idx] := weightPerClass[ClassOf(pairs[idx], n).value];
    }
    assert EveryClassOccurs(pairs, n) by {
      forall c | 0 <= c < n ensures Count(pairs, n, c) > 0 {
        assert counts[c] == Count(pairs, n, c);
      }
    }
    forall i | 0 <= i < |pairs| ensures weight[i] == Weight(pairs, n, i) {
      var c := ClassOf(pairs[i], n).value;
      assert counts[c] == Count(pairs, n, c);
      assert perClass[c] == total / counts[c] as real;
    }
    assert weight[..] == BalancedWeights(pairs, nclasses).value;
    return Ok(weight[..]);
  }

  /** The first loop: `count[item[1]] += 1` for every pair. It stops at the first
      label that is not a valid index. */
  method CountClasses(pairs: seq<Sample>, n: nat) returns (count: array<nat>, inRange: bool)
    ensures fresh(count) && count.Length == n
    ensures inRange <==> LabelsInRange(pairs, n)
    ensures inRange ==> count[..] == Counts(pairs, n)
  {
    count := new nat[n](_ => 0);
    assert count[..] == Counts([], n);
    for i := 0 to |pairs|
      invariant LabelsInRange(pairs[..i], n)
      invariant count[..] == Counts(pairs[..i], n)
    {
      var c := ClassOf(pairs[i], n);
      if c.None? {
        return count, false;
      }
      count[c.value] := count[c.value] + 1;
      CountsSnoc(pairs[..i], pairs[i], n);
      assert pairs[..i + 1] == pairs[..i] + [pairs[i]];
    }
    assert pairs[..|pairs|] == pairs;
    return count, true;
  }

  /** The second loop: `weight_per_class[i] = N / float(count[i])` for every class,
      which fails on the first empty class. */
  method WeightPerClass(count: array<nat>, total: real) returns (weightPerClass: array<real>, nonZero: bool)
    ensures fresh(weightPerClass) && weightPerClass.Length == count.Length
    ensures nonZero <==> forall c :: 0 <= c < count.Length ==> count[c] > 0
    ensures nonZero ==> forall c :: 0 <= c < count.Length ==> weightPerClass[c] == total / count[c] as real
  {
    weightPerClass := new real[count.Length](_ => 0.0);
    for c := 0 to count.Length
      invariant forall c' :: 0 <= c' < c ==> count[c'] > 0 && weightPerClass[c'] == total / count[c'] as real
    {
      if count[c] == 0 {
        return weightPerClass, false;
      }
      weightPerClass[c] := total / count[c] as real;
    }
    return weightPerClass, true;
  }

  /** Adding one sample adds one to the counter of its class and leaves the others. */
  lemma CountsSnoc(pairs: seq<Sample>, s: Sample, n: nat)
    requires ClassOf(s, n).Some?
    ensures Counts(pairs + [s], n) == Counts(pairs, n)[ClassOf(s, n).value := Count(pairs, n, ClassOf(s, n).value) + 1]
  {
    assert (pairs + [s])[..|pairs|] == pairs;
  }

  lemma {:induction false} SumUpdate(xs: seq<nat>, c: nat, v: nat)
    requires c < |xs|
    ensures Sum(xs[c := v]) == Sum(xs) - xs[c] + v
  {
    var ys := xs[c := v];
    if c < |xs| - 1 {
      assert ys[..|ys| - 1] == xs[..|xs| - 1][c := v];
      SumUpdate(xs[..|xs| - 1], c, v);
    } else {
      assert ys[..|ys| - 1] == xs[..|xs| - 1];
    }
  }

  /** When every label is in range, the counters add up to the number of samples:
      `N = sum(count) = len(pairs)`. */
  lemma {:induction false} SumOfCounts(pairs: seq<Sample>, n: nat)
    requires LabelsInRange(pairs, n)
    ensures Sum(Counts(pairs, n)) == |pairs|
  {
    if pairs == [] {
      assert Counts(pairs, n) == seq(n, c => 0);
      SumZeros(n);
    } else {
      var init, s := pairs[..|pairs| - 1], pairs[|pairs| - 1];
      assert LabelsInRange(init, n) by {
        forall i | 0 <= i < |init| ensures ClassOf(init[i], n).Some? {
          assert init[i] == pairs[i];
        }
      }
      SumOfCounts(init, n);
      assert pairs == init + [s];
      CountsSnoc(init, s, n);
      SumUpdate(Counts(init, n), ClassOf(s, n).value, Count(init, n, ClassOf(s, n).value) + 1);
    }
  }

  lemma {:induction false} SumZeros(n: nat)
    ensures Sum(seq(n, c => 0)) == 0
  {
    if n > 0 {
      assert seq(n, c => 0)[..n - 1] == seq(n - 1, c => 0);
      SumZeros(n - 1);
    }
  }

  /** The total weight of the samples among the first `m` that fall into class `c`. */
  function ClassWeight(pairs: seq<Sample>, w: seq<real>, n: nat, c: nat, m: nat): real
    requires m <= |pairs| && |w| == |pairs|
  {
    if m == 0 then 0.0
    else ClassWeight(pairs, w, n, c, m - 1) + (if ClassOf(pairs[m - 1], n) == Some(c) then w[m - 1] else 0.0)
  }

  lemma {:induction false} ClassWeightUniform(pairs: seq<Sample>, w: seq<real>, n: nat, c: nat, x: real, m: nat)
    requires m <= |pairs| && |w| == |pairs|
    requires forall i :: 0 <= i < |pairs| && ClassOf(pairs[i], n) == Some(c) ==> w[i] == x
    ensures ClassWeight(pairs, w, n, c, m) == Repeat(Count(pairs[..m], n, c), x)
  {
    if m > 0 {
      ClassWeightUniform(pairs, w, n, c, x, m - 1);
      assert pairs[..m][..m - 1] == pairs[..m - 1];
    }
  }

  /** `x + x + ... + x`, `k` times. */
  function Repeat(k: nat, x: real): real
  {
    if k == 0 then 0.0 else Repeat(k - 1, x) + x
  }

  /** Adding up `k` shares of `x / k` gives `x` back. */
  lemma RepeatShare(k: nat, x: real)
    requires k > 0
    ensures Repeat(k, x / k as real) == x
  {
    RepeatIsProduct(k, x / k as real);
  }

  lemma {:induction false} RepeatIsProduct(k: nat, x: real)
    ensures Repeat(k, x) == k as real * x
  {
    if k > 0 {
      RepeatIsProduct(k - 1, x);
    }
  }

  /** Balance: every class carries the same total weight, the number of samples. */
  lemma WeightsBalance(pairs: seq<Sample>, nclasses: int, c: nat)
    requires BalancedWeights(pairs, nclasses).Ok? && c < ClassCount(nclasses)
    ensures ClassWeight(pairs, BalancedWeights(pairs, nclasses).value, ClassCount(nclasses), c, |pairs|) == |pairs| as real
  {
    var w := BalancedWeights(pairs, nclasses).value;
    var n := ClassCount(nclasses);
    var x := |pairs| as real / Count(pairs, n, c) as real;
    forall i | 0 <= i < |pairs| && ClassOf(pairs[i], n) == Some(c) ensures w[i] == x {
      assert w[i] == Weight(pairs, n, i);
    }
    ClassWeightShare(pairs, w, n, c);
  }

  /** If every sample of class `c` weighs the number of samples over the size of
      the class, the class weighs the number of samples. */
  lemma ClassWeightShare(pairs: seq<Sample>, w: seq<real>, n: nat, c: nat)
    requires |w| == |pairs| && Count(pairs, n, c) > 0
    requires forall i :: 0 <= i < |pairs| && ClassOf(pairs[i], n) == Some(c) ==>
      w[i] == |pairs| as real / Count(pairs, n, c) as real
    ensures ClassWeight(pairs, w, n, c, |pairs|) == |pairs| as real
  {
    var k := Count(pairs, n, c);
    ClassWeightUniform(pairs, w, n, c, |pairs| as real / k as real, |pairs|);
    assert pairs[..|pairs|] == pairs;
    RepeatShare(k, |pairs| as real);
  }

  /** A class that some sample falls into has a positive count. */
  lemma {:induction false} CountPositive(pairs: seq<Sample>, n: nat, c: nat, i: nat)
    requires i < |pairs| && ClassOf(pairs[i], n) == Some(c)
    ensures Count(pairs, n, c) > 0
  {
    if i < |pairs| - 1 {
      assert pairs[..|pairs| - 1][i] == pairs[i];
      CountPositive(pairs[..|pairs| - 1], n, c, i);
    }
  }

  // ----- the BreaKHis dataset ---------------------------------------------------

  // The columns `pairs[:, 0]` and `pairs[:, 1]`. The ensures of `ImagesOf` and
  // `TargetsOf` only spell out their definitions element by element, for the verifier.

  function ImagesOf(pairs: seq<Sample>): (r: seq<Image>)
    ensures |r| == |pairs| && forall i :: 0 <= i < |pairs| ==> r[i] == pairs[i].image
  {
    seq(|pairs|, i requires 0 <= i < |pairs| => pairs[i].image)
  }

  function TargetsOf(pairs: seq<Sample>): (r: seq<int>)
    ensures |r| == |pairs| && forall i :: 0 <= i < |pairs| ==> r[i] == pairs[i].target
  {
    seq(|pairs|, i requires 0 <= i < |pairs| => pairs[i].target)
  }

  /** The rows `BreaKHis.__init__` ends up with in binary mode, or the error it
      raises first: the benign images (label 0) are read before the malignant ones
      (label 1); a non-empty stack cannot be joined to an empty one, whose array has
      one dimension fewer; and selecting the image column of an empty result fails. */
  function DatasetPairs(root: string, mf: string, glob: string -> seq<string>, io: ImageIO)
    : Result<seq<Sample>>
  {
    var patterns := BinaryPatterns(root, mf);
    var benign := ReadImagesSpec(glob(patterns.0), 0, io, None);
    var malign := ReadImagesSpec(glob(patterns.1), 1, io, None);
    if benign.Err? then Err(benign.error)
    else if malign.Err? then Err(malign.error)
    else if (benign.value == []) != (malign.value == []) then Err(ValueError)
    else
      var pairs := benign.value + malign.value;
      if pairs == [] then Err(IndexError) else Ok(pairs)
  }

  /** Every sample `read_images(paths, target)` returns carries `target`. */
  lemma ReadImagesTargets(paths: seq<string>, target: int, io: ImageIO, imsize: Option<(int, int)>)
    requires ReadImagesSpec(paths, target, io, imsize).Ok?
    ensures forall s :: s in ReadImagesSpec(paths, target, io, imsize).value ==> s.target == target
  {
    ReadImagesEntries(paths, target, io, imsize);
  }

  /** The rows of a dataset that loads are labelled 0 or 1 and both labels occur,
      so the weights of `make_weights_for_balanced_classes(pairs, 2)` always exist. */
  lemma DatasetWeightsDefined(root: string, mf: string, glob: string -> seq<string>, io: ImageIO)
    requires DatasetPairs(root, mf, glob, io).Ok?
    ensures var pairs := DatasetPairs(root, mf, glob, io).value;
      && (forall i :: 0 <= i < |pairs| ==> pairs[i].target == 0 || pairs[i].target == 1)
      && BalancedWeights(pairs, 2).Ok?
  {
    var patterns := BinaryPatterns(root, mf);
    var benign := ReadImagesSpec(glob(patterns.0), 0, io, None).value;
    var malign := ReadImagesSpec(glob(patterns.1), 1, io, None).value;
    ReadImagesTargets(glob(patterns.0), 0, io, None);
    ReadImagesTargets(glob(patterns.1), 1, io, None);
    var pairs := benign + malign;
    assert DatasetPairs(root, mf, glob, io).value == pairs;
    forall i | 0 <= i < |pairs| ensures pairs[i].target == 0 || pairs[i].target == 1 {
      if i < |benign| {
        assert pairs[i] in benign;
      } else {
        assert pairs[i] in malign;
      }
    }
    assert pairs[0] in benign && pairs[|pairs| - 1] in malign;
    CountPositive(pairs, 2, 0, 0);
    CountPositive(pairs, 2, 1, |pairs| - 1);
  }

  /** A `BreaKHis` dataset: images and their targets, one weight per image, the
      number of classes and the optional transforms applied on access. */
  class BreaKHis {
    var images: seq<Image>
    var targets: seq<int>
    var weight: seq<real>
    var nclasses: int
    var transform: Option<Image -> Image>
    var targetTransform: Option<int -> int>

    ghost predicate Valid()
      reads this
    {
      |targets| == |images| && |weight| == |images|
    }

    constructor FromPairs(pairs: seq<Sample>, weight: seq<real>, nclasses: int,
                          transform: Option<Image -> Image>, targetTransform: Option<int -> int>)
      requires |weight| == |pairs|
      ensures Valid()
      ensures this.images == ImagesOf(pairs) && this.targets == TargetsOf(pairs)
      ensures this.weight == weight && this.nclasses == nclasses
      ensures this.transform == transform && this.targetTransform == targetTransform
    {
      this.images := ImagesOf(pairs);
      this.targets := TargetsOf(pairs);
      this.weight := weight;
      this.nclasses := nclasses;
      this.transform := transform;
      this.targetTransform := targetTransform;
    }

    /** `BreaKHis(root, mf, mode, transform, target_transform, shuffle)`. Every mode
        other than binary is switched to binary, so the dataset always has two classes. */
    static method Load(root: string, mf: string, mode: string, transform: Option<Image -> Image>,
                       targetTransform: Option<int -> int>, glob: string -> seq<string>, io: ImageIO)
      returns (r: Result<BreaKHis>)
      ensures var pairs := DatasetPairs(root, mf, glob, io);
        && (r.Ok? <==> pairs.Ok?)
        && (r.Err? ==> r.error == pairs.error)
        && (r.Ok? ==> && fresh(r.value) && r.value.Valid()
                      && r.value.nclasses == 2
                      && r.value.images == ImagesOf(pairs.value)
                      && r.value.targets == TargetsOf(pairs.value)
                      && Ok(r.value.weight) == BalancedWeights(pairs.value, 2)
                      && r.value.transform == transform && r.value.targetTransform == targetTransform)
    {
      var nclasses := 0;
      var binaryMode := mode;
      if binaryMode != "binary" {
        nclasses := 4;
        binaryMode := "binary";
      }
      // the mode is binary from here on
      nclasses := 2;
      var patterns := BinaryPatterns(root, mf);
      var benign := ReadImages(glob(patterns.0), 0, io, None);
      if benign.Err? {
        return Err(benign.error);
      }
      var malign := ReadImages(glob(patterns.1), 1, io, None);
      if malign.Err? {
        return Err(malign.error);
      }
      if (benign.value == []) != (malign.value == []) {
        return Err(ValueError);
      }
      var pairs := benign.value + malign.value;
      if pairs == [] {
        return Err(IndexError);
      }
      assert DatasetPairs(root, mf, glob, io) == Ok(pairs);
      DatasetWeightsDefined(root, mf, glob, io);
      var weight := MakeWeightsForBalancedClasses(pairs, nclasses);
      var dataset := new BreaKHis.FromPairs(pairs, weight.value, nclasses, transform, targetTransform);
      return Ok(dataset);
    }

    /** `__len__`: the number of images. */
    method Len() returns (n: nat)
      ensures n == |images|
    {
      return |images|;
    }

    /** `__getitem__(index)`: the image and target at `index` (counted from the end
        when negative), each passed through its transform when one is set. */
    method GetItem(index: int) returns (r: Result<(Image, int)>)
      requires Valid()
      ensures r.Ok? <==> -|images| <= index < |images|
      ensures r.Err? ==> r.error == IndexError
      ensures r.Ok? ==> exists i :: && 0 <= i < |images| && (i == index || i == index + |images|)
                                    && r.value == (if transform.Some? then transform.value(images[i]) else images[i],
                                                   if targetTransform.Some? then targetTransform.value(targets[i])
                                                   else targets[i])
      ensures transform.None? && targetTransform.None? && 0 <= index < |images| ==>
        r == Ok((images[index], targets[index]))
    {
      var slot := Slot(index, |images|);
      if slot.None? {
        return Err(IndexError);
      }
      var img := images[slot.value];
      var target := targets[slot.value];
      if transform.Some? {
        img := transform.value(img);
      }
      if targetTransform.Some? {
        target := targetTransform.value(target);
      }
      return Ok((img, target));
    }
  }
}
