/**
 * `webp_mp4` before any decoding starts: normalising the input path,
 * deriving or normalising the output path, checking that the input exists,
 * and finding the output directory. The file system is a set of existing
 * paths; the current working directory is a parameter.
 */
module Output {
  import opened Wrappers
  import opened Strings

  /** `'/'.join(path.split('\\'))` */
  function NormalizeSeparators(path: string): (r: string)
    ensures r == ReplaceChar(path, '\\', '/')
    ensures '\\' !in r
  {
    JoinSplitReplaces(path, '\\', '/');
    Join(Split(path, '\\'), '/')
  }

  /** The disambiguating suffix `str(index)`: `''` first, then `1`, `2`, ... */
  function Suffix(index: nat): (r: string)
    ensures r == "" <==> index == 0
    ensures forall k :: 0 <= k < |r| ==> '0' <= r[k] <= '9'
  {
    if index == 0 then "" else NatToString(index)
  }

  /** `'%s/%s.mp4' % (cwd, outfile + str(index))`, the path probed for `index`. */
  function Candidate(cwd: string, base: string, index: nat): (r: string)
    ensures |r| == |cwd| + 1 + |base| + |Suffix(index)| + 4
    ensures r[..|cwd| + 1 + |base|] == cwd + "/" + base
    ensures r[|r| - 4..] == ".mp4"
  {
    cwd + "/" + base + Suffix(index) + ".mp4"
  }

  /** Different suffixes probe different paths. */
  lemma CandidateInjective(cwd: string, base: string, j: nat, k: nat)
    requires Candidate(cwd, base, j) == Candidate(cwd, base, k)
    ensures j == k
  {
    var prefix := cwd + "/" + base;
    var cj, ck := Candidate(cwd, base, j), Candidate(cwd, base, k);
    assert |Suffix(j)| == |Suffix(k)|;
    assert Suffix(j) == cj[|prefix|..|prefix| + |Suffix(j)|];
    assert Suffix(k) == ck[|prefix|..|prefix| + |Suffix(k)|];
    if j != 0 && k != 0 {
      NatToStringInjective(j, k);
    }
  }

  /** `index` is the first suffix whose path does not exist yet. */
  predicate IsLeastFree(cwd: string, base: string, existing: set<string>, index: nat)
  {
    && Candidate(cwd, base, index) !in existing
    && forall j :: 0 <= j < index ==> Candidate(cwd, base, j) in existing
  }

  /** The paths probed for the first `n` suffixes. */
  ghost function Probed(cwd: string, base: string, n: nat): set<string>
  {
    if n == 0 then {} else Probed(cwd, base, n - 1) + {Candidate(cwd, base, n - 1)}
  }

  /** The first `n` probes hit `n` distinct paths, none of a later probe. */
  lemma {:induction false} ProbedDistinct(cwd: string, base: string, n: nat)
    ensures |Probed(cwd, base, n)| == n
    ensures forall k: nat :: k >= n ==> Candidate(cwd, base, k) !in Probed(cwd, base, n)
  {
    if n > 0 {
      ProbedDistinct(cwd, base, n - 1);
      forall k: nat | k >= n
        ensures Candidate(cwd, base, k) != Candidate(cwd, base, n - 1)
      {
        if Candidate(cwd, base, k) == Candidate(cwd, base, n - 1) {
          CandidateInjective(cwd, base, k, n - 1);
        }
      }
    }
  }

  /**
   * The `while os.path.exists(...)` loop: tries `''`, `1`, `2`, ... until the
   * path is free. It stops for every finite set of existing paths, after at
   * most one probe more than there are existing paths.
   */
  method FindFreeSuffix(cwd: string, base: string, existing: set<string>) returns (index: nat)
    ensures IsLeastFree(cwd, base, existing, index)
    ensures index <= |existing|
  {
    index := 0;
    while Candidate(cwd, base, index) in existing
      invariant forall j :: 0 <= j < index ==> Candidate(cwd, base, j) in existing
      invariant Probed(cwd, base, index) <= existing
      invariant index <= |existing|
      decreases |existing| - index
    {
      ProbedDistinct(cwd, base, index + 1);
      assert |Probed(cwd, base, index + 1)| <= |existing| by {
        var pr := Probed(cwd, base, index + 1);
        assert existing == pr + (existing - pr);
      }
      if index == 0 {
        index := 1;
      } else {
        index := index + 1;
      }
    }
  }

  /** What `webp_mp4` settles on before it decodes. */
  datatype Conversion =
    | MissingInput(path: string)
    | Convert(input: string, outfile: string, outdir: string, createOutdir: bool)

  /**
   * Lines up the conversion: the input path with `/` separators; the given
   * output path with `/` separators, or else the input without its extension
   * plus the first free suffix and `.mp4`; a missing input is reported; the
   * output directory is everything of the output path before its last `/`,
   * under the working directory, and is created when it does not exist.
   */
  method WebpMp4(filename: string, outfile: Option<string>, cwd: string, existing: set<string>)
    returns (r: Conversion)
    ensures var input := ReplaceChar(filename, '\\', '/');
      && (r.MissingInput? <==> cwd + "/" + input !in existing)
      && (r.MissingInput? ==> r.path == cwd + "/" + input)
      && (r.Convert? ==> r.input == input)
      && (r.Convert? && outfile.Some? ==> r.outfile == ReplaceChar(outfile.value, '\\', '/'))
      && (r.Convert? && outfile.None? ==>
            exists index: nat :: IsLeastFree(cwd, BeforeLast(input, '.'), existing, index) &&
              r.outfile == BeforeLast(input, '.') + Suffix(index) + ".mp4")
      && (r.Convert? ==> r.outdir == cwd + "/" + BeforeLast(r.outfile, '/'))
      && (r.Convert? ==> (r.createOutdir <==> r.outdir !in existing))
  {
    var name := NormalizeSeparators(filename);
    var out: string;
    if outfile.None? {
      var base := DropLastSegment(name, '.');
      var index := FindFreeSuffix(cwd, base, existing);
      out := base + Suffix(index) + ".mp4";
    } else {
      out := NormalizeSeparators(outfile.value);
    }
    var filePath := cwd + "/" + name;
    if filePath !in existing {
      return MissingInput(filePath);
    }
    var outdir := cwd + "/" + DropLastSegment(out, '/');
    r := Convert(name, out, outdir, outdir !in existing);
  }
}
