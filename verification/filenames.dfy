/**
  The string helpers of the catalogue utilities: `build_filename`, which fixes
  the name, type and resolution of a saved figure, and `_to_latex`, which turns
  `XX(YY)` into the LaTeX subscript `$XX_{YY}$`.
 */
module Filenames {
  import opened Base
  import opened Text

  /** Every position of `p` in `[lo, hi)` holds a dot. */
  predicate AllDots(p: string, lo: int, hi: int)
    requires 0 <= lo && hi <= |p|
  {
    forall k :: lo <= k < hi ==> p[k] == '.'
  }

  /**
    `os.path.splitext` on POSIX: the extension is the text from the last dot,
    provided that dot comes after the last `/` and is preceded, within the last
    path component, by something other than dots.
   */
  function SplitExt(p: string): (r: (string, string))
    ensures r.0 + r.1 == p
    ensures r.1 != [] ==> r.1[0] == '.' && '/' !in r.1 && '.' !in r.1[1..]
  {
    var sepIndex := RFindChar(p, '/');
    var dotIndex := RFindChar(p, '.');
    if dotIndex > sepIndex && !AllDots(p, sepIndex + 1, dotIndex) then
      assert p[..dotIndex] + p[dotIndex..] == p;
      (p[..dotIndex], p[dotIndex..])
    else (p, [])
  }

  /** `build_filename`: the file name with its type as extension, the type, and the resolution. */
  function BuildFilename(filename: string, filetype: string, resolution: Option<int>): (r: (string, string, int))
    ensures r.1 != []
    ensures SplitExt(filename).1 != [] && SplitExt(filename).1 != "." ==> r.1 == SplitExt(filename).1[1..]
    ensures SplitExt(filename).1 == [] && filetype != [] ==> r.1 == filetype
    ensures (SplitExt(filename).1 == "." || (SplitExt(filename).1 == [] && filetype == [])) ==> r.1 == "png"
    ensures r.0 == SplitExt(filename).0 + "." + r.1
    ensures r.2 == if TruthyInt(resolution) then resolution.value else 300
  {
    var (root, ext) := SplitExt(filename);
    var ftype := if ext != [] then ext[1..] else filetype;
    var ftype' := if ftype == [] then "png" else ftype;
    var res := if TruthyInt(resolution) then resolution.value else 300;
    (root + "." + ftype', ftype', res)
  }

  /** A name that already carries an extension comes back unchanged, and that extension is the type. */
  lemma BuildFilenameKeepsExtension(filename: string, filetype: string, resolution: Option<int>)
    requires SplitExt(filename).1 != [] && SplitExt(filename).1 != "."
    ensures BuildFilename(filename, filetype, resolution).0 == filename
  {
    var (root, ext) := SplitExt(filename);
    assert "." + ext[1..] == ext;
    assert root + "." + ext[1..] == root + ext;
  }

  /** The position of the first `(` and first `)` in `a + "(" + b + ")"` when neither part holds `)` and `a` holds no `(`. */
  lemma FindBrackets(a: string, b: string)
    requires '(' !in a && ')' !in a && ')' !in b
    ensures Find(a + "(" + b + ")", "(") == |a|
    ensures Find(a + "(" + b + ")", ")") == |a| + 1 + |b|
  {
    var s := a + "(" + b + ")";
    assert s[|a|] == '(';
    assert OccursAt(s, "(", |a|) by { assert s[|a|..|a| + 1] == "("; }
    forall j | 0 <= j < |a|
      ensures !OccursAt(s, "(", j)
    {
      assert s[j] == a[j];
      assert s[j..j + 1] == [a[j]];
    }
    var c := |a| + 1 + |b|;
    assert s[c] == ')';
    assert OccursAt(s, ")", c) by { assert s[c..c + 1] == ")"; }
    forall j | 0 <= j < c
      ensures !OccursAt(s, ")", j)
    {
      assert s[j..j + 1] == [s[j]];
      if j < |a| {
        assert s[j] == a[j];
      } else if j > |a| {
        assert s[j] == b[j - |a| - 1];
      }
    }
  }

  /** `_to_latex`: the text before the first `(` with the bracketed text as a subscript, in math mode. */
  function ToLatex(s: string): (r: string)
    ensures |r| >= 5 && r[0] == '$' && r[|r| - 2..] == "}$"
  {
    var lb := Find(s, "(");
    var ub := Find(s, ")");
    "$" + PySlice(s, 0, lb) + "_{" + PySlice(s, lb + 1, ub) + "}$"
  }

  /** `_to_latex("A(B)") == "$A_{B}$"` for bracket-free `A` and `B`. */
  lemma ToLatexSubscript(a: string, b: string)
    requires '(' !in a && ')' !in a && ')' !in b
    ensures ToLatex(a + "(" + b + ")") == "$" + a + "_{" + b + "}$"
  {
    var s := a + "(" + b + ")";
    FindBrackets(a, b);
    assert PySlice(s, 0, |a|) == a;
    assert PySlice(s, |a| + 1, |a| + 1 + |b|) == b;
  }

  /** Without brackets both searches give -1, and Python's negative slice end drops the last character twice over. */
  lemma ToLatexWithoutBrackets(s: string)
    requires '(' !in s && ')' !in s && |s| > 0
    ensures ToLatex(s) == "$" + s[..|s| - 1] + "_{" + s[..|s| - 1] + "}$"
  {
    forall j
      ensures !OccursAt(s, "(", j) && !OccursAt(s, ")", j)
    {
      if 0 <= j && j + 1 <= |s| {
        assert s[j..j + 1] == [s[j]] && s[j] in s;
      }
    }
  }
}
