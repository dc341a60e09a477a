/** `add_file_suffix` and the decimal index it is given (src/splitter.rs),
    over paths written as strings with `/` as the separator. */
module Paths {

  const Separator: char := '/'

  /** The position of the last `c` in `s`, or -1 when `s` has none. */
  function LastIndexOf(s: string, c: char): (k: int)
    ensures -1 <= k < |s|
    ensures k >= 0 ==> s[k] == c
    ensures forall j :: k < j < |s| ==> s[j] != c
    decreases |s|
  {
    if |s| == 0 then -1
    else if s[|s| - 1] == c then |s| - 1
    else LastIndexOf(s[..|s| - 1], c)
  }

  /** The last occurrence is the only position with the three properties above. */
  lemma LastIndexOfUnique(s: string, c: char, k: int)
    requires -1 <= k < |s|
    requires k >= 0 ==> s[k] == c
    requires forall j :: k < j < |s| ==> s[j] != c
    ensures LastIndexOf(s, c) == k
  {
  }

  /** The final component of the path. */
  function FileName(path: string): string
  {
    path[LastIndexOf(path, Separator) + 1..]
  }

  /** Everything up to and including the last separator; empty for a bare file name. */
  function Directory(path: string): string
  {
    path[..LastIndexOf(path, Separator) + 1]
  }

  lemma DirectoryAndFileName(path: string)
    ensures Directory(path) + FileName(path) == path
    ensures Separator !in FileName(path)
    ensures |Directory(path)| == 0 || Directory(path)[|Directory(path)| - 1] == Separator
  {
    var name := FileName(path);
    var k := LastIndexOf(path, Separator);
    forall j | 0 <= j < |name|
      ensures name[j] != Separator
    {
      assert name[j] == path[k + 1 + j];
    }
  }

  /** A file name `stem.ext`: it has a `.` that is not its first character, and it
      is not the parent-directory name `..`. `Path::file_stem` and `Path::extension`
      both return a value exactly for these names. */
  predicate HasStemAndExtension(name: string)
  {
    LastIndexOf(name, '.') > 0 && name != ".."
  }

  /** The file name up to its last `.`. */
  function FileStem(name: string): string
    requires HasStemAndExtension(name)
  {
    name[..LastIndexOf(name, '.')]
  }

  /** The file name after its last `.`. */
  function Extension(name: string): string
    requires HasStemAndExtension(name)
  {
    name[LastIndexOf(name, '.') + 1..]
  }

  lemma StemAndExtension(name: string)
    requires HasStemAndExtension(name)
    ensures FileStem(name) + "." + Extension(name) == name
    ensures |FileStem(name)| > 0
    ensures '.' !in Extension(name)
  {
    var ext := Extension(name);
    var k := LastIndexOf(name, '.');
    forall j | 0 <= j < |ext|
      ensures ext[j] != '.'
    {
      assert ext[j] == name[k + 1 + j];
    }
  }

  /** A string in which `c` does not occur adds nothing to the last occurrence of `c`. */
  lemma LastIndexOfAppend(s: string, t: string, c: char)
    requires c !in t
    ensures LastIndexOf(s + t, c) == LastIndexOf(s, c)
  {
    var k := LastIndexOf(s, c);
    var st := s + t;
    forall j | k < j < |st|
      ensures st[j] != c
    {
      if j >= |s| {
        assert st[j] == t[j - |s|];
      }
    }
    LastIndexOfUnique(st, c, k);
  }

  /** `add_file_suffix`: the file `stem.ext` becomes `stem_<suffix>.ext` in the same directory. */
  function AddFileSuffix(inputPath: string, suffix: string): (r: string)
    requires HasStemAndExtension(FileName(inputPath))
    requires Separator !in suffix
    ensures Directory(r) == Directory(inputPath)
    ensures FileName(r) == FileStem(FileName(inputPath)) + "_" + suffix + "." + Extension(FileName(inputPath))
  {
    var dir := Directory(inputPath);
    var name := FileName(inputPath);
    var newName := FileStem(name) + "_" + suffix + "." + Extension(name);
    DirectoryAndFileName(inputPath);
    StemAndExtension(name);
    assert Separator !in newName by {
      forall j | 0 <= j < |newName|
        ensures newName[j] != Separator
      {
        var stem := FileStem(name);
        var ext := Extension(name);
        if j < |stem| {
          assert newName[j] == name[j];
        } else if j < |stem| + 1 + |suffix| + 1 {
        } else {
          assert newName[j] == name[j - (|stem| + 1 + |suffix| + 1) + |stem| + 1];
        }
      }
    }
    var r := dir + newName;
    LastIndexOfAppend(dir, newName, Separator);
    assert LastIndexOf(dir, Separator) == |dir| - 1 by {
      LastIndexOfUnique(dir, Separator, |dir| - 1);
    }
    assert r[..|dir|] == dir;
    assert r[|dir|..] == newName;
    r
  }

  /** The suffixed name still has a stem and an extension: the stem gained
      `_<suffix>`, and the extension is unchanged. */
  lemma SuffixedNameParts(inputPath: string, suffix: string)
    requires HasStemAndExtension(FileName(inputPath))
    requires Separator !in suffix && '.' !in suffix
    ensures HasStemAndExtension(FileName(AddFileSuffix(inputPath, suffix)))
    ensures FileStem(FileName(AddFileSuffix(inputPath, suffix))) == FileStem(FileName(inputPath)) + "_" + suffix
    ensures Extension(FileName(AddFileSuffix(inputPath, suffix))) == Extension(FileName(inputPath))
  {
    var name := FileName(inputPath);
    var stem := FileStem(name);
    var ext := Extension(name);
    StemAndExtension(name);
    var front := stem + "_" + suffix;
    var newName := FileName(AddFileSuffix(inputPath, suffix));
    assert newName == (front + ".") + ext;
    LastIndexOfAppend(front + ".", ext, '.');
    LastIndexOfUnique(front + ".", '.', |front|);
    assert newName[|stem|] == '_';
    assert newName[..|front|] == front;
    assert newName[|front| + 1..] == ext;
  }

  /** The decimal digit for `d`. */
  function Digit(d: nat): char
    requires d < 10
  {
    ('0' as int + d) as char
  }

  predicate IsDigit(c: char)
  {
    '0' as int <= c as int <= '9' as int
  }

  function DigitValue(c: char): nat
    requires IsDigit(c)
  {
    c as int - '0' as int
  }

  /** `usize::to_string`: the decimal numeral of `n`, without leading zeros. */
  function DecimalString(n: nat): (s: string)
    ensures |s| > 0
    ensures forall i :: 0 <= i < |s| ==> IsDigit(s[i])
    decreases n
  {
    if n < 10 then [Digit(n)] else DecimalString(n / 10) + [Digit(n % 10)]
  }

  /** The value of a numeral. */
  function ParseDecimal(s: string): nat
    requires forall i :: 0 <= i < |s| ==> IsDigit(s[i])
    decreases |s|
  {
    if |s| == 0 then 0
    else ParseDecimal(s[..|s| - 1]) * 10 + DigitValue(s[|s| - 1])
  }

  /** Reading a numeral back gives the number it was written from. */
  lemma {:induction false} ParseDecimalString(n: nat)
    ensures ParseDecimal(DecimalString(n)) == n
    decreases n
  {
    var s := DecimalString(n);
    if n >= 10 {
      ParseDecimalString(n / 10);
      assert s[..|s| - 1] == DecimalString(n / 10);
    }
  }

  /** Distinct indices have distinct numerals. */
  lemma DecimalStringInjective(i: nat, j: nat)
    requires i != j
    ensures DecimalString(i) != DecimalString(j)
  {
    ParseDecimalString(i);
    ParseDecimalString(j);
  }

  lemma DecimalStringPlain(n: nat)
    ensures Separator !in DecimalString(n) && '.' !in DecimalString(n)
  {
    var s := DecimalString(n);
    forall i | 0 <= i < |s|
      ensures s[i] != Separator && s[i] != '.'
    {
      assert IsDigit(s[i]);
    }
  }

  /** The output path of the `index`-th piece. */
  function OutputPath(basePath: string, index: nat): (r: string)
    requires HasStemAndExtension(FileName(basePath))
    ensures Directory(r) == Directory(basePath)
  {
    DecimalStringPlain(index);
    AddFileSuffix(basePath, DecimalString(index))
  }

  /** Two pieces never get the same output path. */
  lemma OutputPathsDistinct(basePath: string, i: nat, j: nat)
    requires HasStemAndExtension(FileName(basePath))
    requires i != j
    ensures OutputPath(basePath, i) != OutputPath(basePath, j)
  {
    DecimalStringPlain(i);
    DecimalStringPlain(j);
    SuffixedNameParts(basePath, DecimalString(i));
    SuffixedNameParts(basePath, DecimalString(j));
    DecimalStringInjective(i, j);
    var prefix := FileStem(FileName(basePath)) + "_";
    var si := prefix + DecimalString(i);
    var sj := prefix + DecimalString(j);
    assert si[|prefix|..] == DecimalString(i);
    assert sj[|prefix|..] == DecimalString(j);
  }
}
