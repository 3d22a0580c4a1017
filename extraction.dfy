/** `extract_text` of ml_utils.py: the lowercased file extension chooses the
    reader; an unknown extension is an error. Reading the file is foreign
    I/O, so what each reader would return for the file is given as
    `FileContents`. */
module Extraction {
  import opened TextUtil

  /** What the three readers yield for one file: the UTF-8 text of `open`
      (undecodable bytes dropped), the text of `docx2txt.process`, and the
      per-page texts of `pdfplumber`, in page order. */
  datatype FileContents = FileContents(plainText: string, docxText: string, pdfPages: seq<string>)

  datatype ExtractError = UnsupportedFileType

  /** Index of the last occurrence of `c` in `s`, or -1. */
  function LastIndexOf(s: string, c: char): (r: int)
    ensures -1 <= r < |s|
    ensures r >= 0 ==> s[r] == c
    ensures forall i | r < i < |s| :: s[i] != c
  {
    if s == [] then -1
    else if s[|s| - 1] == c then |s| - 1
    else LastIndexOf(s[..|s| - 1], c)
  }

  /** Some character of `s[from..to]` is not a dot. */
  predicate HasNonDot(s: string, from: nat, to: nat)
    requires from <= to <= |s|
  {
    exists i | from <= i < to :: s[i] != '.'
  }

  /** `os.path.splitext(path)[1]` for POSIX paths: the part from the last
      dot of the last path component, unless that component has only dots
      before it (so `.bashrc` has no extension). */
  function Extension(path: string): (ext: string)
    ensures ext == [] || (ext[0] == '.' && '.' !in ext[1..] && '/' !in ext)
    ensures |ext| <= |path| && ext == path[|path| - |ext|..]
  {
    var sepIndex := LastIndexOf(path, '/');
    var dotIndex := LastIndexOf(path, '.');
    if dotIndex > sepIndex && HasNonDot(path, sepIndex + 1, dotIndex) then
      var ext := path[dotIndex..];
      assert forall i | 0 <= i < |ext| - 1 :: ext[1..][i] == path[dotIndex + 1 + i];
      ext
    else []
  }

  /** A name `stem + ext`, where `ext` is a dot followed by no dot and no
      slash and the last path component of `stem` has a character other
      than `.`, has extension `ext`. So `up/x_cv..pdf` has extension `.pdf`. */
  lemma ExtensionOfName(stem: string, ext: string)
    requires HasNonDot(stem, LastIndexOf(stem, '/') + 1, |stem|)
    requires ext != [] && ext[0] == '.' && '.' !in ext[1..] && '/' !in ext
    ensures Extension(stem + ext) == ext
  {
    var path := stem + ext;
    var sepIndex := LastIndexOf(stem, '/');
    LastIndexOfAppend(stem, ext, '/');
    assert LastIndexOf(path, '.') == |stem| by {
      forall i | |stem| < i < |path| ensures path[i] != '.' {
        assert path[i] == ext[1..][i - |stem| - 1];
      }
      LastIndexOfIs(path, '.', |stem|);
    }
    NonDotOfName(stem, ext, sepIndex + 1);
    ExtensionAt(path, sepIndex, |stem|);
    DropFront(stem, ext);
  }

  /** The last occurrence of `c` is the one with no `c` after it. */
  lemma {:induction false} LastIndexOfIs(s: string, c: char, k: nat)
    requires k < |s| && s[k] == c
    requires forall i | k < i < |s| :: s[i] != c
    ensures LastIndexOf(s, c) == k
    decreases |s|
  {
    if k < |s| - 1 {
      LastIndexOfIs(s[..|s| - 1], c, k);
    }
  }

  lemma NonDotOfName(stem: string, ext: string, from: nat)
    requires from <= |stem| && HasNonDot(stem, from, |stem|)
    ensures HasNonDot(stem + ext, from, |stem|)
  {
    var w :| from <= w < |stem| && stem[w] != '.';
    assert (stem + ext)[w] == stem[w];
  }

  /** When the last dot lies in the last path component after a non-dot
      character, the extension is the suffix from that dot. */
  lemma ExtensionAt(path: string, sepIndex: int, dotIndex: int)
    requires sepIndex == LastIndexOf(path, '/') && dotIndex == LastIndexOf(path, '.')
    requires sepIndex < dotIndex && HasNonDot(path, sepIndex + 1, dotIndex)
    ensures Extension(path) == path[dotIndex..]
  {
  }

  /** Characters after `s` that are not `c` do not move the last `c`. */
  lemma {:induction false} LastIndexOfAppend(s: string, t: string, c: char)
    requires c !in t
    ensures LastIndexOf(s + t, c) == LastIndexOf(s, c)
    decreases |t|
  {
    if t != [] {
      var u := s + t;
      assert u[|u| - 1] == t[|t| - 1] != c;
      assert u[..|u| - 1] == s + t[..|t| - 1];
      LastIndexOfAppend(s, t[..|t| - 1], c);
    } else {
      assert s + t == s;
    }
  }

  /** A path has an extension exactly when its last component holds a dot
      after some character other than a dot: `cv.pdf` and `a..pdf` have one,
      `.pdf`, `..pdf`, `cv` and `dir.d/cv` have none. */
  lemma ExtensionPresentIff(path: string)
    ensures Extension(path) != [] <==>
      exists i, j | LastIndexOf(path, '/') < i < j < |path| :: path[i] != '.' && path[j] == '.'
  {
    if Extension(path) != [] {
      ExtensionWitness(path);
    }
    if exists i, j | LastIndexOf(path, '/') < i < j < |path| :: path[i] != '.' && path[j] == '.' {
      var i, j :| LastIndexOf(path, '/') < i < j < |path| && path[i] != '.' && path[j] == '.';
      ExtensionFromWitness(path, i, j);
    }
  }

  lemma ExtensionWitness(path: string)
    requires Extension(path) != []
    ensures exists i, j | LastIndexOf(path, '/') < i < j < |path| :: path[i] != '.' && path[j] == '.'
  {
    var sepIndex := LastIndexOf(path, '/');
    var dotIndex := LastIndexOf(path, '.');
    assert sepIndex < dotIndex && HasNonDot(path, sepIndex + 1, dotIndex);
    var i :| sepIndex + 1 <= i < dotIndex && path[i] != '.';
    assert path[i] != '.' && path[dotIndex] == '.';
  }

  lemma ExtensionFromWitness(path: string, i: int, j: int)
    requires LastIndexOf(path, '/') < i < j < |path| && path[i] != '.' && path[j] == '.'
    ensures Extension(path) != []
  {
    var sepIndex := LastIndexOf(path, '/');
    var dotIndex := LastIndexOf(path, '.');
    assert j <= dotIndex;
    assert HasNonDot(path, sepIndex + 1, dotIndex) by {
      assert sepIndex + 1 <= i < dotIndex && path[i] != '.';
    }
    ExtensionAt(path, sepIndex, dotIndex);
  }

  /** `ext.lower()` is one of the extensions `extract_text` handles. */
  predicate Supported(ext: string): (b: bool)
    ensures b ==> |ext| >= 4 && ext[0] == '.' && '.' !in ext[1..] && '/' !in ext
  {
    ext == ".txt" || ext == ".docx" || ext == ".pdf"
  }

  /** `extract_text(file_path)`, with the readers' output given. */
  method ExtractText(path: string, contents: FileContents) returns (r: Result<string, ExtractError>)
    ensures r.Failure? <==> !Supported(Lower(Extension(path)))
    ensures Lower(Extension(path)) == ".txt" ==> r == Success(contents.plainText)
    ensures Lower(Extension(path)) == ".docx" ==> r == Success(contents.docxText)
    ensures Lower(Extension(path)) == ".pdf" ==> r == Success(Join("\n", contents.pdfPages))
  {
    var ext := Lower(Extension(path));
    var text := "";
    if ext == ".txt" {
      text := contents.plainText;
    } else if ext == ".docx" {
      text := contents.docxText;
    } else if ext == ".pdf" {
      var pages := contents.pdfPages;
      text := Join("\n", pages);
    } else {
      return Failure(UnsupportedFileType);
    }
    return Success(text);
  }

  /** The text of a PDF keeps its pages in order, one newline between
      consecutive pages: cutting it at newlines gives the pages back when no
      page holds a newline of its own. */
  lemma PdfPagesRecoverable(pages: seq<string>)
    requires pages != []
    requires forall k | 0 <= k < |pages| :: '\n' !in pages[k]
    ensures SplitOn(Join("\n", pages), '\n') == pages
  {
    SplitJoinRoundTrip('\n', pages);
  }

  /** The length of a PDF's text is the total length of its pages plus one
      newline between each two of them. */
  lemma {:induction false} PdfTextLength(pages: seq<string>)
    requires pages != []
    ensures |Join("\n", pages)| == TotalLength(pages) + |pages| - 1
  {
    if |pages| > 1 {
      PdfTextLength(pages[1..]);
    }
  }

  /** The reader is chosen by the extension with its case ignored:
      `CV.PDF` and `x_cv..PDF` are read as PDFs. */
  lemma ExtensionCaseIgnored(stem: string, e: string)
    requires HasNonDot(stem, LastIndexOf(stem, '/') + 1, |stem|)
    requires '.' !in e && '/' !in e
    ensures Lower(Extension(stem + ("." + e))) == "." + Lower(e)
  {
    assert ("." + e)[1..] == e;
    ExtensionOfName(stem, "." + e);
    LowerPrepend('.', e);
  }

  /** Which names `extract_text` reads: with the stem's last component
      holding a character other than `.`, the name `stem.e` has a reader
      exactly when `e`, lowercased, is `txt`, `docx` or `pdf`. So `cv.PDF`
      is read and `cv.pdf.bak` is refused. */
  lemma SupportedName(stem: string, e: string)
    requires HasNonDot(stem, LastIndexOf(stem, '/') + 1, |stem|)
    requires '.' !in e && '/' !in e
    ensures Supported(Lower(Extension(stem + ("." + e)))) <==>
      Lower(e) == "txt" || Lower(e) == "docx" || Lower(e) == "pdf"
  {
    ExtensionCaseIgnored(stem, e);
    SupportedDotted(Lower(e));
  }

  lemma SupportedDotted(x: string)
    ensures Supported("." + x) <==> x == "txt" || x == "docx" || x == "pdf"
  {
    assert ("." + x)[1..] == x;
    assert ".txt"[1..] == "txt" && ".docx"[1..] == "docx" && ".pdf"[1..] == "pdf";
  }
}
