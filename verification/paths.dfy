/**
 * Pure POSIX paths as `pathlib` builds them: a path is a flag saying whether
 * it starts at the root plus its components, together with the name-level
 * helpers `suffixes` and `stem` that the notebook tool relies on.
 */
module Paths {
  import Text

  /** A proper path component: non-empty, not ".", and free of the separator. */
  predicate IsComponent(p: string)
  {
    p != "" && p != "." && '/' !in p
  }

  /** `PurePosixPath`: rooted or relative, with its components in order. */
  datatype Path = Path(rooted: bool, parts: seq<string>)
  {
    /** Every component is a proper one, as `pathlib` always leaves them. */
    predicate Valid()
    {
      forall k :: 0 <= k < |parts| ==> IsComponent(parts[k])
    }

    /** `.name`: the last component, or "" for the root and for ".". */
    function Name(): string
    {
      if |parts| == 0 then "" else parts[|parts| - 1]
    }

    /** `.parent`: the path without its last component; the root and "." are their own parents. */
    function Parent(): Path
    {
      if |parts| == 0 then this else Path(rooted, parts[..|parts| - 1])
    }

    /** `self / seg`: an absolute segment starts over, any other appends its components. */
    function Join(seg: string): Path
    {
      var s := Parse(seg);
      if s.rooted then s else Path(rooted, parts + s.parts)
    }
  }

  /** The pieces a split on "/" leaves once the empty and "." pieces are dropped. */
  function Components(pieces: seq<string>): (cs: seq<string>)
    ensures forall k :: 0 <= k < |cs| ==> cs[k] != "" && cs[k] != "." && cs[k] in pieces
  {
    if |pieces| == 0 then []
    else if pieces[0] == "" || pieces[0] == "." then Components(pieces[1..])
    else [pieces[0]] + Components(pieces[1..])
  }

  lemma PiecesHaveNoSeparator(s: string)
    ensures forall k :: 0 <= k < |Text.Split(s, "/")| ==> '/' !in Text.Split(s, "/")[k]
  {
    Text.SplitPiecesAvoidPattern(s, "/");
    forall k | 0 <= k < |Text.Split(s, "/")| ensures '/' !in Text.Split(s, "/")[k] {
      Text.ContainsChar(Text.Split(s, "/")[k], '/');
    }
  }

  /** `PurePosixPath(s)`: split on "/", dropping empty and "." components. */
  function Parse(s: string): (p: Path)
    ensures p.Valid()
    ensures p.rooted <==> |s| > 0 && s[0] == '/'
  {
    PiecesHaveNoSeparator(s);
    Path(|s| > 0 && s[0] == '/', Components(Text.Split(s, "/")))
  }

  /** `str(p)`. */
  function Format(p: Path): string
  {
    if |p.parts| == 0 then (if p.rooted then "/" else ".")
    else (if p.rooted then "/" else "") + Text.Join(p.parts, "/")
  }

  /** Proper components pass through the filter untouched. */
  lemma {:induction false} ComponentsOfComponents(cs: seq<string>)
    requires forall k :: 0 <= k < |cs| ==> IsComponent(cs[k])
    ensures Components(cs) == cs
    decreases |cs|
  {
    if |cs| > 0 {
      ComponentsOfComponents(cs[1..]);
      assert cs == [cs[0]] + cs[1..];
    }
  }

  lemma TextJoinStartsWithFirst(cs: seq<string>)
    requires |cs| > 0
    ensures cs[0] <= Text.Join(cs, "/")
  {
  }

  /** The components of a relative text made by joining proper components. */
  lemma ParseJoined(cs: seq<string>)
    requires |cs| > 0
    requires forall k :: 0 <= k < |cs| ==> IsComponent(cs[k])
    ensures Parse(Text.Join(cs, "/")) == Path(false, cs)
  {
    Text.JoinSplitRoundTrip(cs, '/');
    ComponentsOfComponents(cs);
    TextJoinStartsWithFirst(cs);
    assert Text.Join(cs, "/")[0] == cs[0][0];
  }

  /** Printing a path and parsing the text back gives the same path. */
  lemma ParseFormatRoundTrip(p: Path)
    requires p.Valid()
    ensures Parse(Format(p)) == p
  {
    if |p.parts| == 0 {
      if p.rooted {
        Text.SplitFromSingleSep("", '/', "", "");
        assert "" + "/" + "" == "/";
      } else {
        Text.SplitFromSingleNoSep(".", '/', "");
      }
    } else if !p.rooted {
      ParseJoined(p.parts);
      assert Format(p) == Text.Join(p.parts, "/");
    } else {
      var j := Text.Join(p.parts, "/");
      Text.SplitFromSingleSep("", '/', j, "");
      assert Format(p) == "" + "/" + j;
      Text.JoinSplitRoundTrip(p.parts, '/');
      ComponentsOfComponents(p.parts);
    }
  }

  /** Joining an empty segment changes nothing, as `p / ""` does. */
  lemma JoinNothing(p: Path)
    ensures p.Join("") == p
  {
    assert Parse("").parts == [];
    assert p.parts + [] == p.parts;
  }

  /** Joining one proper component appends it; it becomes the name and the old path the parent. */
  lemma JoinComponent(p: Path, c: string)
    requires IsComponent(c)
    ensures p.Join(c) == Path(p.rooted, p.parts + [c])
    ensures p.Join(c).Name() == c && p.Join(c).Parent() == p
  {
    Text.SplitFromSingleNoSep(c, '/', "");
    assert "" + c == c;
    assert Components([c]) == [c] by {
      assert [c][1..] == [];
    }
    assert (p.parts + [c])[..|p.parts|] == p.parts;
  }

  /** Joining a relative multi-component segment appends each of its components. */
  lemma JoinRelative(p: Path, cs: seq<string>)
    requires |cs| > 0
    requires forall k :: 0 <= k < |cs| ==> IsComponent(cs[k])
    ensures p.Join(Text.Join(cs, "/")) == Path(p.rooted, p.parts + cs)
  {
    ParseJoined(cs);
  }

  /** A valid path's name is empty or a proper component, and its parent stays valid. */
  lemma NameAndParentOfValid(p: Path)
    requires p.Valid()
    ensures p.Name() == "" || IsComponent(p.Name())
    ensures p.Parent().Valid()
    ensures p.Name() == "" <==> |p.parts| == 0
  {
  }

  /** How many dots `n` starts with. */
  function LeadingDots(n: string): (k: nat)
    ensures k <= |n|
    ensures k == |n| || n[k] != '.'
    ensures forall j :: 0 <= j < k ==> n[j] == '.'
  {
    if |n| > 0 && n[0] == '.' then 1 + LeadingDots(n[1..]) else 0
  }

  /** `name.lstrip('.')`: what is left after the leading dots. */
  function LStripDots(n: string): (l: string)
    ensures |l| <= |n| && l == n[|n| - |l|..]
    ensures l == "" || l[0] != '.'
  {
    n[LeadingDots(n)..]
  }

  /** Each piece after a dot, with the dot put back in front. */
  function Dotted(pieces: seq<string>): (sfx: seq<string>)
    ensures |sfx| == |pieces|
    ensures forall k :: 0 <= k < |pieces| ==> sfx[k] == "." + pieces[k]
  {
    if |pieces| == 0 then [] else ["." + pieces[0]] + Dotted(pieces[1..])
  }

  /** `PurePath.suffixes` of a path whose name is `name`. */
  function Suffixes(name: string): seq<string>
  {
    if |name| > 0 && name[|name| - 1] == '.' then []
    else Dotted(Text.Split(LStripDots(name), ".")[1..])
  }

  /** Every suffix is a dot followed by text without a dot. */
  lemma SuffixesAreDotted(name: string)
    ensures forall k :: 0 <= k < |Suffixes(name)| ==>
      |Suffixes(name)[k]| > 0 && Suffixes(name)[k][0] == '.' && '.' !in Suffixes(name)[k][1..]
  {
    if !(|name| > 0 && name[|name| - 1] == '.') {
      var pieces := Text.Split(LStripDots(name), ".");
      Text.SplitPiecesAvoidPattern(LStripDots(name), ".");
      forall k | 1 <= k < |pieces| ensures '.' !in pieces[k] {
        Text.ContainsChar(pieces[k], '.');
      }
      forall k | 0 <= k < |Suffixes(name)| ensures Suffixes(name)[k][1..] == pieces[k + 1] {
        assert Suffixes(name)[k] == "." + pieces[1..][k];
      }
    }
  }

  /** `name.rfind('.')`: the index of the last dot, or -1 when there is none. */
  function LastDot(n: string): (i: int)
    ensures -1 <= i < |n|
    ensures i >= 0 ==> n[i] == '.'
    ensures forall k :: i < k < |n| ==> n[k] != '.'
  {
    if |n| == 0 then -1
    else if n[|n| - 1] == '.' then |n| - 1
    else LastDot(n[..|n| - 1])
  }

  /** `PurePath.stem` of a path whose name is `name`. */
  function Stem(name: string): (st: string)
    ensures st <= name
    ensures st == name || (0 < |st| < |name| - 1 && name[|st|] == '.' && '.' !in name[|st| + 1..])
    ensures st != name <==> exists i :: 0 < i < |name| - 1 && name[i] == '.' && '.' !in name[i + 1..]
  {
    var i := LastDot(name);
    assert forall j :: 0 <= j < |name| && name[j] == '.' && '.' !in name[j + 1..] ==> j == i;
    if 0 < i < |name| - 1 then name[..i] else name
  }

  /**
   * A name whose suffix list is exactly ["." + ext]: after any leading dots it
   * is a dot-free base followed by "." and `ext`.
   */
  predicate HasOnlySuffix(n: string, ext: string)
  {
    EndsWithOnlyDot(LStripDots(n), ext)
  }

  lemma SplitTwo(base: string, ext: string)
    requires '.' !in base && '.' !in ext
    ensures Text.Split(base + "." + ext, ".") == [base, ext]
  {
    Text.JoinSplitRoundTrip([base, ext], '.');
    assert Text.Join([base, ext], ".") == base + "." + ext;
  }

  /** A text splits at dots into some base and then `ext` exactly when it ends in "." + `ext` after a dot-free base. */
  predicate EndsWithOnlyDot(l: string, ext: string)
  {
    |l| > |ext| && l[|l| - |ext| - 1..] == "." + ext && '.' !in l[..|l| - |ext| - 1]
  }

  lemma SplitOneDot(l: string, ext: string)
    requires EndsWithOnlyDot(l, ext) && '.' !in ext
    ensures Text.Split(l, ".") == [l[..|l| - |ext| - 1], ext]
  {
    var base := l[..|l| - |ext| - 1];
    assert l == base + "." + ext;
    SplitTwo(base, ext);
  }

  lemma OneDotOfSplit(l: string, ext: string)
    requires |Text.Split(l, ".")| == 2 && Text.Split(l, ".")[1] == ext
    ensures EndsWithOnlyDot(l, ext)
  {
    var pieces := Text.Split(l, ".");
    Text.SplitJoinRoundTrip(l, ".");
    assert Text.Join(pieces, ".") == pieces[0] + "." + ext;
    Text.SplitPiecesAvoidPattern(l, ".");
    Text.ContainsChar(pieces[0], '.');
    assert l[..|l| - |ext| - 1] == pieces[0];
    assert l[|l| - |ext| - 1..] == "." + ext;
  }

  lemma DottedSingle(ps: seq<string>, x: string)
    ensures Dotted(ps) == ["." + x] <==> ps == [x]
  {
    if Dotted(ps) == ["." + x] {
      assert ("." + ps[0])[1..] == ps[0];
      assert ("." + x)[1..] == x;
    }
  }

  /** `suffixes` is the one-element list ["." + ext] exactly for the names `HasOnlySuffix` describes. */
  lemma OnlySuffix(n: string, ext: string)
    requires ext != "" && '.' !in ext
    ensures Suffixes(n) == ["." + ext] <==> HasOnlySuffix(n, ext)
  {
    var l := LStripDots(n);
    var pieces := Text.Split(l, ".");
    DottedSingle(pieces[1..], ext);
    if HasOnlySuffix(n, ext) {
      assert EndsWithOnlyDot(l, ext);
      SplitOneDot(l, ext);
      assert n[|n| - 1] == l[|l| - 1] == ext[|ext| - 1];
    }
    if Suffixes(n) == ["." + ext] {
      assert pieces[1..] == [ext];
      OneDotOfSplit(l, ext);
    }
  }

  /** The extension the tool accepts. */
  const NotebookSuffix := ".ipynb"

  lemma NotebookSuffixParts()
    ensures NotebookSuffix == "." + "ipynb" && "ipynb" != "" && '.' !in "ipynb"
  {
  }

  /** A name whose suffix list is exactly [".ipynb"]. */
  predicate IsNotebookName(n: string)
  {
    HasOnlySuffix(n, "ipynb")
  }

  /** The suffix check accepts exactly the notebook names. */
  lemma NotebookSuffixes(n: string)
    ensures Suffixes(n) == [NotebookSuffix] <==> IsNotebookName(n)
  {
    NotebookSuffixParts();
    OnlySuffix(n, "ipynb");
  }

  lemma NoLeadingDot(n: string)
    requires n == "" || n[0] != '.'
    ensures LStripDots(n) == n
  {
  }

  lemma JoinThree(a: string, b: string, c: string)
    ensures Text.Join([a, b, c], ".") == a + "." + b + "." + c
  {
    assert [a, b, c][1..] == [b, c];
    assert [b, c][1..] == [c];
    assert Text.Join([b, c], ".") == b + "." + c;
    assert Text.Join([a, b, c], ".") == a + "." + (b + "." + c);
  }

  /** A name with a further suffix before the last one has two suffixes, so it is not a one-suffix name. */
  lemma ExtraSuffixRejected(base: string, extra: string, ext: string)
    requires |base| > 0 && base[0] != '.'
    requires '.' !in base && '.' !in extra && '.' !in ext && ext != ""
    ensures Suffixes(base + "." + extra + "." + ext) == ["." + extra, "." + ext]
    ensures !HasOnlySuffix(base + "." + extra + "." + ext, ext)
  {
    var n := base + "." + extra + "." + ext;
    assert n[0] == base[0];
    NoLeadingDot(n);
    assert Text.Split(n, ".") == [base, extra, ext] by {
      JoinThree(base, extra, ext);
      Text.JoinSplitRoundTrip([base, extra, ext], '.');
    }
    assert [base, extra, ext][1..] == [extra, ext];
    assert n[|n| - 1] == ext[|ext| - 1];
    OnlySuffix(n, ext);
  }

  /** `x.tar.ipynb` is refused. */
  lemma TarNotebookRejected()
    ensures Suffixes("x.tar.ipynb") != [NotebookSuffix]
  {
    ExtraSuffixRejected("x", "tar", "ipynb");
    assert "x" + "." + "tar" + "." + "ipynb" == "x.tar.ipynb";
    NotebookSuffixes("x.tar.ipynb");
  }

  /** The last dot of a text that ends in "." + `ext`, for a dot-free `ext`, is the one before `ext`. */
  lemma LastDotBeforeExt(n: string, ext: string)
    requires |n| > |ext| && n[|n| - |ext| - 1..] == "." + ext && '.' !in ext
    ensures LastDot(n) == |n| - |ext| - 1
  {
    var i := |n| - |ext| - 1;
    assert n[i] == '.';
    forall k | i < k < |n| ensures n[k] != '.' {
      assert n[k] == ext[k - i - 1];
    }
  }

  lemma StemAtDot(n: string, i: int)
    requires LastDot(n) == i && 0 < i < |n| - 1
    ensures Stem(n) == n[..i]
  {
  }

  /** A tail of the stripped name is a tail of the name, and it starts past the leading dots. */
  lemma StrippedTail(n: string, l: string, t: string)
    requires l == LStripDots(n) && |t| <= |l| && l[|l| - |t|..] == t && |t| > 0 && t[0] == '.'
    ensures n[|n| - |t|..] == t && |t| < |n|
  {
    TailOfTail(n, l, t);
  }

  lemma TailOfTail(n: string, l: string, t: string)
    requires |l| <= |n| && l == n[|n| - |l|..] && |t| <= |l| && l[|l| - |t|..] == t
    ensures n[|n| - |t|..] == t
  {
    assert n[|n| - |t|..] == l[|l| - |t|..];
  }

  lemma PrefixThenTail(n: string, i: nat, t: string)
    requires i <= |n| && n[i..] == t
    ensures n[..i] + t == n
  {
  }

  /** A one-suffix name's stem is the name without "." + `ext`. */
  lemma OnlySuffixStem(n: string, ext: string)
    requires HasOnlySuffix(n, ext) && ext != "" && '.' !in ext
    ensures Stem(n) + ("." + ext) == n
  {
    var l := LStripDots(n);
    var i := |n| - |ext| - 1;
    var t := "." + ext;
    assert |t| == |ext| + 1;
    assert n[i..] == t && 0 < i < |n| - 1 by {
      StrippedTail(n, l, t);
    }
    assert LastDot(n) == i by {
      LastDotBeforeExt(n, ext);
    }
    assert Stem(n) == n[..i] by {
      StemAtDot(n, i);
    }
    PrefixThenTail(n, i, t);
  }

  /** An accepted notebook's stem is its name without ".ipynb". */
  lemma NotebookStem(n: string)
    requires IsNotebookName(n)
    ensures Stem(n) + NotebookSuffix == n
  {
    NotebookSuffixParts();
    OnlySuffixStem(n, "ipynb");
  }

  /** The stem of `d + ".md"` is `d` exactly when `d` is not empty. */
  lemma MarkdownStem(d: string)
    ensures Stem(d + ".md") == d <==> d != ""
  {
    var n := d + ".md";
    assert n[|d|] == '.' && n[|d| + 1..] == "md";
    assert LastDot(n) == |d|;
    assert n[..|d|] == d;
  }
}
