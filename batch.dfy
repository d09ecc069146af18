/**
 * The generation loop shared by both generators: every code is encoded in
 * order, item `i` (counting from 1) is saved as `code_{i:04d}.png`, a failure
 * is reported and skipped, and progress is reported every hundred items.
 */
module Batch {
  import opened Wrappers
  import opened Raster
  import opened Naming
  import opened Console

  /** What the Data Matrix encoder hands back: bitmap width, height and RGB bytes. */
  datatype Encoded = Encoded(width: nat, height: nat, pixels: seq<byte>)

  /**
   * The encoder's guarantee about a symbol it returns: a non-empty bitmap
   * with exactly three bytes per pixel.
   */
  type Symbol = e: Encoded | e.width > 0 && e.height > 0 && |e.pixels| == 3 * (e.width * e.height)
    witness Encoded(1, 1, [0, 0, 0])

  /** `encode(code.encode('utf-8'))`: the symbol, or the text of the exception raised. */
  type Encoder = string -> Result<Symbol, string>

  /** How many times larger than the encoder's bitmap the saved image is, in each direction. */
  const Scale: nat := 5

  /** The encoder's bitmap as an image. */
  function Bitmap(s: Symbol): (img: Image)
    ensures Valid(img) && img.width == s.width && img.height == s.height
  {
    FromBytes(s.width, s.height, s.pixels)
  }

  /**
   * `generate_datamatrix(code, filename)` up to the save: the enlarged image,
   * or the error that escapes it. It fails exactly when the encoder does.
   */
  function Render(encode: Encoder, code: string): (r: Result<Image, string>)
    ensures r.Failure? <==> encode(code).Failure?
    ensures r.Failure? ==> r.error == encode(code).error
    ensures r.Success? ==>
      (Valid(r.value)
       && r.value.width == Scale * encode(code).value.width
       && r.value.height == Scale * encode(code).value.height)
  {
    match encode(code)
    case Failure(e) => Failure(e)
    case Success(s) => Success(Resize(Bitmap(s), Scale * s.width, Scale * s.height))
  }

  /**
   * The saved image replicates each bitmap pixel into a 5-by-5 block, and
   * shrinking it back by the same NEAREST rule gives the bitmap again.
   */
  lemma RenderReplicates(encode: Encoder, code: string, x: nat, y: nat)
    requires encode(code).Success?
    requires x < Scale * encode(code).value.width && y < Scale * encode(code).value.height
    ensures x / Scale < encode(code).value.width && y / Scale < encode(code).value.height
    ensures At(Render(encode, code).value, x, y) == At(Bitmap(encode(code).value), x / Scale, y / Scale)
  {
    ResizeByFactor(Bitmap(encode(code).value), Scale, x, y);
  }

  lemma RenderShrinksBack(encode: Encoder, code: string)
    requires encode(code).Success?
    ensures var s := encode(code).value;
      Resize(Render(encode, code).value, s.width, s.height) == Bitmap(s)
  {
    ResizeBack(Bitmap(encode(code).value), Scale);
  }

  /** The outcome of every item of the batch, in order. */
  function Results(encode: Encoder, codes: seq<string>): (rs: seq<Result<Image, string>>)
    ensures |rs| == |codes|
    ensures forall k :: 0 <= k < |codes| ==> rs[k] == Render(encode, codes[k])
  {
    seq(|codes|, k requires 0 <= k < |codes| => Render(encode, codes[k]))
  }

  /** Item `i` (1-based) succeeded. */
  predicate Saved(rs: seq<Result<Image, string>>, i: nat) {
    1 <= i <= |rs| && rs[i - 1].Success?
  }

  /**
   * The image directory after items 1 to `n`, starting from `dir`: each
   * success is written under its item's path, over whatever was there.
   */
  function Stored(dir: map<string, Image>, rs: seq<Result<Image, string>>, n: nat): map<string, Image>
    requires n <= |rs|
  {
    if n == 0 then dir
    else if rs[n - 1].Success? then Stored(dir, rs, n - 1)[ItemPath(n) := rs[n - 1].value]
    else Stored(dir, rs, n - 1)
  }

  /** The image directory after the whole batch. */
  function Store(dir: map<string, Image>, rs: seq<Result<Image, string>>): map<string, Image> {
    Stored(dir, rs, |rs|)
  }

  lemma {:induction false} StoredSaved(dir: map<string, Image>, rs: seq<Result<Image, string>>, m: nat, i: nat)
    requires m <= |rs| && Saved(rs, i) && i <= m
    ensures ItemPath(i) in Stored(dir, rs, m) && Stored(dir, rs, m)[ItemPath(i)] == rs[i - 1].value
  {
    if i < m {
      StoredSaved(dir, rs, m - 1, i);
      ItemPathInjective(i, m);
    }
  }

  /** A successful item's image is in the directory, under its own path. */
  lemma StoreSaved(dir: map<string, Image>, rs: seq<Result<Image, string>>, i: nat)
    requires Saved(rs, i)
    ensures ItemPath(i) in Store(dir, rs) && Store(dir, rs)[ItemPath(i)] == rs[i - 1].value
  {
    StoredSaved(dir, rs, |rs|, i);
  }

  lemma {:induction false} StoredOther(dir: map<string, Image>, rs: seq<Result<Image, string>>, m: nat, p: string)
    requires m <= |rs|
    requires forall i: nat :: Saved(rs, i) && i <= m ==> p != ItemPath(i)
    ensures p in Stored(dir, rs, m) <==> p in dir
    ensures p in dir ==> Stored(dir, rs, m)[p] == dir[p]
  {
    if m > 0 {
      StoredOther(dir, rs, m - 1, p);
      if rs[m - 1].Success? {
        assert Saved(rs, m);
      }
    }
  }

  /** Any path that is no successful item's is left as it was. */
  lemma StoreOther(dir: map<string, Image>, rs: seq<Result<Image, string>>, p: string)
    requires forall i :: Saved(rs, i) ==> p != ItemPath(i)
    ensures p in Store(dir, rs) <==> p in dir
    ensures p in dir ==> Store(dir, rs)[p] == dir[p]
  {
    StoredOther(dir, rs, |rs|, p);
  }

  /**
   * Files exist afterwards exactly for the paths that were there before and
   * the paths of the items that succeeded.
   */
  lemma StoreKeys(dir: map<string, Image>, rs: seq<Result<Image, string>>)
    ensures Store(dir, rs).Keys == dir.Keys + set i | 0 <= i <= |rs| && Saved(rs, i) :: ItemPath(i)
  {
    var saved := set i | 0 <= i <= |rs| && Saved(rs, i) :: ItemPath(i);
    forall p | p in Store(dir, rs) && p !in dir ensures p in saved {
      if forall i :: Saved(rs, i) ==> p != ItemPath(i) {
        StoreOther(dir, rs, p);
      }
    }
    forall p | p in saved ensures p in Store(dir, rs) {
      var i :| 0 <= i <= |rs| && Saved(rs, i) && p == ItemPath(i);
      StoreSaved(dir, rs, i);
    }
    forall p | p in dir ensures p in Store(dir, rs) {
      if forall i :: Saved(rs, i) ==> p != ItemPath(i) {
        StoreOther(dir, rs, p);
      } else {
        var i :| Saved(rs, i) && p == ItemPath(i);
        StoreSaved(dir, rs, i);
      }
    }
  }

  /**
   * A failed item leaves a gap: its path holds whatever it held before (no
   * later item is shifted into it), and the batch carries on.
   */
  lemma FailureLeavesGap(dir: map<string, Image>, rs: seq<Result<Image, string>>, i: nat)
    requires 1 <= i <= |rs| && rs[i - 1].Failure?
    ensures ItemPath(i) in Store(dir, rs) <==> ItemPath(i) in dir
    ensures ItemPath(i) in dir ==> Store(dir, rs)[ItemPath(i)] == dir[ItemPath(i)]
  {
    forall j | Saved(rs, j) ensures ItemPath(i) != ItemPath(j) {
      ItemPathInjective(i, j);
    }
    StoreOther(dir, rs, ItemPath(i));
  }

  /**
   * Failure isolation: what the batch leaves under item `i`'s path depends on
   * item `i`'s code alone. Two encoders that agree on that code leave the same
   * file for it, however differently every other item fares.
   */
  lemma Isolation(dir: map<string, Image>, codes: seq<string>, encode: Encoder, other: Encoder, i: nat)
    requires 1 <= i <= |codes| && encode(codes[i - 1]) == other(codes[i - 1])
    ensures var mine, theirs := Store(dir, Results(encode, codes)), Store(dir, Results(other, codes));
      (ItemPath(i) in mine <==> ItemPath(i) in theirs)
      && (ItemPath(i) in mine ==> mine[ItemPath(i)] == theirs[ItemPath(i)])
  {
    var rs, rs' := Results(encode, codes), Results(other, codes);
    assert rs[i - 1] == rs'[i - 1];
    if rs[i - 1].Success? {
      StoreSaved(dir, rs, i);
      StoreSaved(dir, rs', i);
    } else {
      FailureLeavesGap(dir, rs, i);
      FailureLeavesGap(dir, rs', i);
    }
  }

  /** What is printed for item `i` once it has been tried. */
  function Report(i: nat, code: string, r: Result<Image, string>): seq<Message> {
    match r
    case Success(_) => if i % 100 == 0 then [Processed(i)] else []
    case Failure(e) => [GenerationError(code, e)]
  }

  /** What the loop prints for items 1 to `n`, in order. */
  function Printed(codes: seq<string>, rs: seq<Result<Image, string>>, n: nat): seq<Message>
    requires |codes| == |rs| && n <= |rs|
  {
    if n == 0 then [] else Printed(codes, rs, n - 1) + Report(n, codes[n - 1], rs[n - 1])
  }

  /** What the loop prints over the whole batch. */
  function ItemLog(codes: seq<string>, rs: seq<Result<Image, string>>): seq<Message>
    requires |codes| == |rs|
  {
    Printed(codes, rs, |rs|)
  }

  lemma {:induction false} ProgressUpTo(codes: seq<string>, rs: seq<Result<Image, string>>, m: nat, n: nat)
    requires |codes| == |rs| && m <= |rs|
    ensures Processed(n) in Printed(codes, rs, m) <==> n % 100 == 0 && 1 <= n <= m && rs[n - 1].Success?
  {
    if m > 0 {
      ProgressUpTo(codes, rs, m - 1, n);
    }
  }

  /**
   * Progress is reported for `n` exactly when `n` is a multiple of 100 and
   * item `n` succeeded: the report follows the save, inside the `try`.
   */
  lemma ProgressReported(codes: seq<string>, rs: seq<Result<Image, string>>, n: nat)
    requires |codes| == |rs|
    ensures Processed(n) in ItemLog(codes, rs) <==> n % 100 == 0 && Saved(rs, n)
  {
    ProgressUpTo(codes, rs, |rs|, n);
  }

  /** Item `i`, with code `code`, failed with error text `e`. */
  predicate FailedWith(codes: seq<string>, rs: seq<Result<Image, string>>, i: nat, code: string, e: string)
    requires |codes| == |rs|
  {
    1 <= i <= |rs| && rs[i - 1] == Failure(e) && codes[i - 1] == code
  }

  lemma {:induction false} ErrorUpTo(codes: seq<string>, rs: seq<Result<Image, string>>, m: nat, code: string, e: string)
    requires |codes| == |rs| && m <= |rs|
    ensures GenerationError(code, e) in Printed(codes, rs, m)
      <==> exists i: nat :: i <= m && FailedWith(codes, rs, i, code, e)
  {
    if m > 0 {
      ErrorUpTo(codes, rs, m - 1, code, e);
      if FailedWith(codes, rs, m, code, e) {
        assert GenerationError(code, e) in Report(m, codes[m - 1], rs[m - 1]);
      }
      if exists i: nat :: i <= m && FailedWith(codes, rs, i, code, e) {
        var i: nat :| i <= m && FailedWith(codes, rs, i, code, e);
        if i < m {
          assert i <= m - 1 && FailedWith(codes, rs, i, code, e);
        }
      }
    }
  }

  /** An error is reported, with the failing code and its error text, exactly for each failed item. */
  lemma ErrorReported(codes: seq<string>, rs: seq<Result<Image, string>>, code: string, e: string)
    requires |codes| == |rs|
    ensures GenerationError(code, e) in ItemLog(codes, rs) <==> exists i: nat :: FailedWith(codes, rs, i, code, e)
  {
    ErrorUpTo(codes, rs, |rs|, code, e);
  }

  /**
   * One pass of the loop body: item `i` is rendered and saved, and progress
   * is reported after the save when `i` is a multiple of 100; a failure is
   * caught and reported instead. Returns the directory and log afterwards.
   */
  method Attempt(i: nat, code: string, encode: Encoder, saved: map<string, Image>, log: seq<Message>)
    returns (saved': map<string, Image>, log': seq<Message>)
    ensures var r := Render(encode, code);
      saved' == (if r.Success? then saved[ItemPath(i) := r.value] else saved)
      && log' == log + Report(i, code, r)
  {
    saved', log' := saved, log;
    match Render(encode, code) {
      case Success(img) =>
        saved' := saved'[ItemPath(i) := img];
        if i % 100 == 0 {
          log' := log' + [Processed(i)];
        }
      case Failure(e) =>
        log' := log' + [GenerationError(code, e)];
    }
  }

  /**
   * The loop of both generators: `for i, code in enumerate(codes, 1)`, with
   * each item's encode-and-save in a `try` whose `except` reports the error
   * and goes on. Returns the image directory, what was printed, and the codes
   * handed to the encoder in call order.
   */
  method GenerateAll(codes: seq<string>, encode: Encoder, dir: map<string, Image>)
    returns (saved: map<string, Image>, log: seq<Message>, attempted: seq<string>)
    ensures attempted == codes
    ensures saved == Store(dir, Results(encode, codes))
    ensures log == ItemLog(codes, Results(encode, codes))
  {
    ghost var rs := Results(encode, codes);
    saved, log, attempted := dir, [], [];
    var i := 1;
    while i <= |codes|
      invariant 1 <= i <= |codes| + 1
      invariant attempted == codes[..i - 1]
      invariant saved == Stored(dir, rs, i - 1)
      invariant log == Printed(codes, rs, i - 1)
    {
      var code := codes[i - 1];
      assert rs[i - 1] == Render(encode, code);
      attempted := attempted + [code];
      saved, log := Attempt(i, code, encode, saved, log);
      assert saved == Stored(dir, rs, i) && log == Printed(codes, rs, i);
      assert codes[..i] == codes[..i - 1] + [code];
      i := i + 1;
    }
    assert codes[..|codes|] == codes;
  }
}
