/**
 * What both upload endpoints share: the uploaded file parts, the
 * extension rule `allowed_file`, and the allowed set
 * `Config.ALLOWED_EXTENSIONS`.
 */
module Uploads {
  import opened Wrappers
  import opened Text
  import opened Protocol

  const AllowedExtensions: set<string> := {"png", "jpg", "jpeg", "bmp", "gif"}

  /**
   * One part of the `images` field: the client's file name, the bytes,
   * and the size PIL reports when it can open the bytes as an image.
   */
  datatype Upload = Upload(filename: string, content: Bytes, size: Option<(int, int)>)

  /** A `FileStorage` is truthy exactly when it has a file name. */
  predicate Present(u: Upload)
  {
    u.filename != ""
  }

  /** `'.' in filename and filename.rsplit('.', 1)[1].lower() in ALLOWED_EXTENSIONS`. */
  predicate AllowedFile(filename: string)
  {
    '.' in filename && Lower(AfterLastDot(filename)) in AllowedExtensions
  }

  /** The rule reads only the text after the last dot: a name is allowed iff it ends in `.` + an allowed suffix without dots. */
  lemma AllowedFileIff(filename: string)
    ensures AllowedFile(filename) <==>
      exists i :: 0 <= i < |filename| && filename[i] == '.' && Lacks(filename[i + 1..], '.')
                  && Lower(filename[i + 1..]) in AllowedExtensions
  {
    if '.' in filename {
      var j := LastIndexOf(filename, '.');
      assert AfterLastDot(filename) == filename[j + 1..];
      forall i | 0 <= i < |filename| && filename[i] == '.' && Lacks(filename[i + 1..], '.')
        ensures i == j
      {
      }
    }
  }

  /** With the last dot at `i`, the rule looks only at what follows it. */
  lemma AllowedBySuffix(name: string, i: int)
    requires 0 <= i < |name| && name[i] == '.'
    requires forall k :: i < k < |name| ==> name[k] != '.'
    ensures AllowedFile(name) <==> Lower(name[i + 1..]) in AllowedExtensions
  {
    LastIndexOfAt(name, '.', i);
    assert AfterLastDot(name) == name[i + 1..];
  }

  /**
   * Only the last suffix counts: whatever the stem holds (dots included),
   * a name ending in `.` and a dot-free suffix is allowed exactly when
   * that suffix, lower-cased, is an allowed extension.
   */
  lemma LastSuffixCounts(stem: string, ext: string)
    requires Lacks(ext, '.')
    ensures AllowedFile(stem + "." + ext) <==> Lower(ext) in AllowedExtensions
  {
    var name := stem + "." + ext;
    assert name[|stem|] == '.';
    assert name[|stem| + 1..] == ext;
    forall k | |stem| < k < |name| ensures name[k] != '.' {
      assert name[k] == ext[k - |stem| - 1];
    }
    AllowedBySuffix(name, |stem|);
  }

  /** Case does not matter: a suffix is treated exactly as its lower-case form. */
  lemma UpperCaseSuffixAllowed(stem: string, ext: string)
    requires Lacks(ext, '.')
    ensures AllowedFile(stem + "." + ext) <==> AllowedFile(stem + "." + Lower(ext))
  {
    var low := Lower(ext);
    assert Lacks(low, '.') by {
      forall k | 0 <= k < |low| ensures low[k] != '.' {
        assert low[k] == LowerChar(ext[k]);
      }
    }
    assert Lower(low) == low by {
      forall k | 0 <= k < |low| ensures Lower(low)[k] == low[k] {
        assert low[k] == LowerChar(ext[k]);
      }
    }
    LastSuffixCounts(stem, ext);
    LastSuffixCounts(stem, low);
  }

  /** A name without a dot is refused, even when it spells an extension. */
  lemma NoDotRefused(name: string)
    ensures Lacks(name, '.') ==> !AllowedFile(name)
  {
  }

  /**
   * A bare `.png` passes the rule, yet `splitext` sees a hidden file
   * without extension, so a name built from `splitext(...)[1]` gets none.
   */
  lemma HiddenNameAllowedWithoutExtension()
    ensures AllowedFile(".png")
    ensures SplitExt(".png") == (".png", "")
  {
    var name := ".png";
    assert name[0] == '.' && name[1] != '.' && name[2] != '.' && name[3] != '.';
    LastIndexOfAt(name, '.', 0);
    assert name[1..] == "png";
    assert Lower("png") == "png";
    assert !ExtStart(".png", 0);
    forall i ensures !ExtStart(".png", i) {
      if 0 < i < 4 { assert ".png"[i] != '.'; }
    }
  }

  /** The positions holding `true`, in order. */
  function Positions(flags: seq<bool>): (r: seq<nat>)
    ensures |r| <= |flags|
    ensures forall k :: 0 <= k < |r| ==> r[k] < |flags| && flags[r[k]]
    ensures forall i :: 0 <= i < |flags| && flags[i] ==> i in r
  {
    if flags == [] then []
    else
      var n := |flags| - 1;
      var prev := Positions(flags[..n]);
      assert forall i :: 0 <= i < n ==> flags[..n][i] == flags[i];
      if flags[n] then prev + [n] else prev
  }

  /** The entries for the files whose flag is set among the first `|flags|`: the `k`-th from the `k`-th such position. */
  function Gather<T>(files: seq<Upload>, flags: seq<bool>, entry: (Upload, nat, nat) -> T): seq<T>
    requires |flags| <= |files|
  {
    var at := Positions(flags);
    seq(|at|, k requires 0 <= k < |at| => entry(files[at[k]], at[k], k))
  }

  /** One pass of an upload loop: an unflagged file keeps the entries, a flagged one adds its own. */
  lemma GatherStep<T>(files: seq<Upload>, flags: seq<bool>, entry: (Upload, nat, nat) -> T, i: nat, entries: seq<T>)
    requires i < |flags| <= |files| && entries == Gather(files, flags[..i], entry)
    ensures !flags[i] ==> entries == Gather(files, flags[..i + 1], entry)
    ensures flags[i] ==> entries + [entry(files[i], i, |entries|)] == Gather(files, flags[..i + 1], entry)
  {
    var next := flags[..i + 1];
    assert next == flags[..i] + [flags[i]];
    assert next[..i] == flags[..i];
  }

  lemma {:induction false} PositionsIncreasing(flags: seq<bool>)
    ensures forall k, l :: 0 <= k < l < |Positions(flags)| ==> Positions(flags)[k] < Positions(flags)[l]
  {
    if flags != [] {
      PositionsIncreasing(flags[..|flags| - 1]);
    }
  }

  /** Every flag is set exactly when every position is listed. */
  lemma {:induction false} PositionsAll(flags: seq<bool>)
    ensures |Positions(flags)| == |flags| <==> forall i :: 0 <= i < |flags| ==> flags[i]
  {
    if flags != [] {
      var n := |flags| - 1;
      var p := flags[..n];
      var prev := Positions(p);
      assert Positions(flags) == if flags[n] then prev + [n] else prev;
      PositionsAll(p);
      if flags[n] {
        assert forall i :: 0 <= i < n ==> p[i] == flags[i];
        assert (forall i :: 0 <= i < |flags| ==> flags[i]) <==> (forall i :: 0 <= i < n ==> p[i]);
      } else {
        assert |Positions(flags)| < |flags|;
      }
    }
  }
}
