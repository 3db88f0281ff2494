/**
 * The notebook-to-blog tool: the suffix check, the destination layout, the
 * order of the abort checks, the moves of the converter's output and the
 * rewrite of image links. The file system is a set of existing paths, the
 * converter is an oracle (its return code and the paths it produces), and
 * the converted text is a parameter; every side effect is recorded in a
 * trace instead of being performed.
 */
module NbToBlog {
  import Text
  import opened Paths

  /** `IMG_PATH`: where post images live, relative to the site output directory. */
  const ImgPath := "assets/img/blog"

  /** The components of `IMG_PATH`. */
  const ImgParts := ["assets", "img", "blog"]

  lemma ImgPathComponents()
    ensures |ImgParts| == 3
    ensures forall k :: 0 <= k < |ImgParts| ==> IsComponent(ImgParts[k])
  {
    assert IsComponent("assets") && IsComponent("img") && IsComponent("blog");
  }

  lemma ImgPathJoined()
    ensures ImgPath == Text.Join(ImgParts, "/")
  {
    assert ImgParts[1..] == ["img", "blog"];
    assert ["img", "blog"][1..] == ["blog"];
  }

  lemma OutputWords()
    ensures IsComponent("_output") && IsComponent("_posts")
  {
  }

  /** `path_notebook.parent.name + ".md"`: the post's file name. */
  function PostFilename(nb: Path): string
  {
    nb.Parent().Name() + ".md"
  }

  /** The directory's own name as a list of components: none when the name is empty. */
  function NameParts(dir: Path): seq<string>
  {
    if dir.Name() == "" then [] else [dir.Name()]
  }

  /** The two directories `_create_destination_dirs` computes. */
  datatype Layout = Layout(postsDir: Path, assetDir: Path)

  /**
   * `_create_destination_dirs(nb_dir)`: the posts directory
   * `nb_dir.parent / "_output" / "_posts"` and the asset directory
   * `nb_dir.parent / "_output" / IMG_PATH / nb_dir.name`, written out
   * component by component (`DestinationDirsByJoin` shows the joins agree).
   */
  function DestinationDirs(nbDir: Path): Layout
  {
    var base := nbDir.Parent();
    Layout(Path(base.rooted, base.parts + ["_output", "_posts"]),
           Path(base.rooted, base.parts + ["_output"] + ImgParts + NameParts(nbDir)))
  }

  /** The posts directory is `nb_dir.parent / "_output" / "_posts"`. */
  lemma PostsDirByJoin(nbDir: Path)
    requires nbDir.Valid()
    ensures DestinationDirs(nbDir).postsDir == nbDir.Parent().Join("_output").Join("_posts")
  {
    var base := nbDir.Parent();
    OutputWords();
    JoinComponent(base, "_output");
    var out := base.Join("_output");
    JoinComponent(out, "_posts");
    assert out.parts + ["_posts"] == base.parts + ["_output", "_posts"];
  }

  /** `base / "_output" / IMG_PATH` appends the output directory and the components of `IMG_PATH`. */
  lemma ImgDirByJoin(base: Path)
    ensures base.Join("_output").Join(ImgPath) == Path(base.rooted, base.parts + ["_output"] + ImgParts)
  {
    OutputWords();
    JoinComponent(base, "_output");
    ImgPathComponents();
    ImgPathJoined();
    JoinRelative(base.Join("_output"), ImgParts);
  }

  /** The asset directory is `nb_dir.parent / "_output" / IMG_PATH / nb_dir.name`. */
  lemma AssetDirByJoin(nbDir: Path)
    requires nbDir.Valid()
    ensures DestinationDirs(nbDir).assetDir == nbDir.Parent().Join("_output").Join(ImgPath).Join(nbDir.Name())
  {
    var img := nbDir.Parent().Join("_output").Join(ImgPath);
    ImgDirByJoin(nbDir.Parent());
    NameAndParentOfValid(nbDir);
    if nbDir.Name() == "" {
      JoinNothing(img);
      assert NameParts(nbDir) == [];
      assert img.parts + [] == img.parts;
    } else {
      JoinComponent(img, nbDir.Name());
    }
  }

  /** The layout is what the `/` joins of `_create_destination_dirs` produce. */
  lemma DestinationDirsByJoin(nbDir: Path)
    requires nbDir.Valid()
    ensures DestinationDirs(nbDir).postsDir == nbDir.Parent().Join("_output").Join("_posts")
    ensures DestinationDirs(nbDir).assetDir == nbDir.Parent().Join("_output").Join(ImgPath).Join(nbDir.Name())
  {
    PostsDirByJoin(nbDir);
    AssetDirByJoin(nbDir);
  }

  /** The asset directory is named like the post file without ".md", unless the notebook directory has no name. */
  lemma AssetDirNamedAfterPost(nb: Path)
    requires nb.Valid()
    ensures DestinationDirs(nb.Parent()).assetDir.Name() == Stem(PostFilename(nb)) <==> nb.Parent().Name() != ""
  {
    var dir := nb.Parent();
    NameAndParentOfValid(nb);
    MarkdownStem(dir.Name());
    var asset := DestinationDirs(dir).assetDir;
    if dir.Name() == "" {
      assert asset.parts[|asset.parts| - 1] == ImgParts[2];
      assert Stem(".md") == ".md";
      assert "blog" != ".md";
    }
  }

  /** The posts directory and the asset directory lie side by side: neither is inside the other. */
  lemma LayoutDirsApart(nbDir: Path)
    requires nbDir.Valid()
    ensures !(DestinationDirs(nbDir).postsDir.parts <= DestinationDirs(nbDir).assetDir.parts)
    ensures !(DestinationDirs(nbDir).assetDir.parts <= DestinationDirs(nbDir).postsDir.parts)
    ensures DestinationDirs(nbDir).postsDir != DestinationDirs(nbDir).assetDir
  {
    var l := DestinationDirs(nbDir);
    var base := nbDir.Parent().parts;
    var n := |base|;
    assert l.postsDir.parts[n + 1] == "_posts";
    assert l.assetDir.parts[n + 1] == ImgParts[0] == "assets";
    DifferAt(l.postsDir.parts, l.assetDir.parts, n + 1);
  }

  lemma DifferAt(a: seq<string>, b: seq<string>, i: nat)
    requires i < |a| && i < |b| && a[i] != b[i]
    ensures !(a <= b) && !(b <= a) && a != b
  {
  }

  /** What the tool does to the outside world, in order. */
  datatype Effect =
    | MakeDirs(dir: Path)                       // mkdir(parents=True, exist_ok=True)
    | Convert(notebook: Path, made: set<Path>)  // jupyter nbconvert --to markdown, and what it produced
    | Move(src: Path, dst: Path)                // shutil.move
    | WriteFile(file: Path, contents: string)   // open(file, "w").write(contents)

  /** The exceptions a run can end with. */
  datatype PyError = ValueError | FileNotFound(missing: Path) | NameError

  /** How a run ends: normally, through `exit(code)`, or with an uncaught exception. */
  datatype Outcome = Completed | Exit(code: int) | Raised(error: PyError)

  /**
   * The world a run meets: the paths that exist beforehand, the converter's
   * return code, the paths it produces, and the text of the markdown it writes.
   */
  datatype Env = Env(existing: set<Path>, returnCode: int, produced: set<Path>, markdown: string)

  /** The effects a run performs and how it ends. */
  datatype Trace = Trace(effects: seq<Effect>, outcome: Outcome)

  /** The proper ancestors `mkdir(parents=True)` creates along with a directory. */
  function Ancestors(d: Path): (a: set<Path>)
    ensures forall p :: p in a ==> p.rooted == d.rooted && p.parts < d.parts
  {
    set k | 0 <= k < |d.parts| :: Path(d.rooted, d.parts[..k])
  }

  /** The paths that exist after one effect. */
  function Apply(fs: set<Path>, e: Effect): set<Path>
  {
    match e
    case MakeDirs(d) => fs + Ancestors(d) + {d}
    case Convert(_, made) => fs + made
    case Move(src, dst) => fs - {src} + {dst}
    case WriteFile(f, _) => fs + {f}
  }

  /** The paths that exist after a sequence of effects. */
  function ApplyAll(fs: set<Path>, effects: seq<Effect>): set<Path>
    decreases |effects|
  {
    if |effects| == 0 then fs else ApplyAll(Apply(fs, effects[0]), effects[1..])
  }

  /**
   * `d.exists()` on the paths `fs`. The lookup resolves a trailing `..`, so
   * `x/..` exists exactly when `x` does; any other path is looked up as it
   * is written.
   */
  predicate Exists(fs: set<Path>, d: Path)
  {
    d in fs || (d.Name() == ".." && d.Parent() in fs)
  }

  /**
   * What the check of `_create_destination_dirs` finds, read off the paths
   * `before` the run: the asset directory existed already, or it ends in
   * `..` and so names the parent of the directory the second `mkdir` makes.
   */
  predicate AssetTaken(l: Layout, before: set<Path>)
  {
    l.assetDir in before || l.assetDir.Name() == ".."
  }

  /** `path_notebook.stem + "_files"`: the converter's image directory name. */
  function FilesDirName(stem: string): string
  {
    stem + "_files"
  }

  /**
   * `_rewrite_png_links` with the notebook stem passed in: every
   * non-overlapping occurrence of `<stem>_files`, left to right, becomes
   * `"/" + IMG_PATH`.
   */
  function RewritePngLinks(text: string, stem: string): string
  {
    Text.Replace(text, FilesDirName(stem), "/" + ImgPath)
  }

  /** `path_notebook.parent / (path_notebook.stem + ".md")`: where the converter leaves the markdown. */
  function MarkdownOutput(nb: Path): Path
  {
    nb.Parent().Join(Stem(nb.Name()) + ".md")
  }

  /** `path_notebook.parent / (path_notebook.stem + "_files")`: where the converter leaves the images. */
  function ImagesOutput(nb: Path): Path
  {
    nb.Parent().Join(FilesDirName(Stem(nb.Name())))
  }

  /** `post_path_dir / post_filename`: where the post ends up. */
  function PostPath(nb: Path): Path
    requires nb.Valid()
  {
    DestinationDirs(nb.Parent()).postsDir.Join(PostFilename(nb))
  }

  /** The two `mkdir` calls of `_create_destination_dirs`. */
  function MakeDestinationDirs(l: Layout): seq<Effect>
  {
    [MakeDirs(l.postsDir), MakeDirs(l.assetDir.Parent())]
  }

  /** The paths `main` works with for one notebook, all fixed before anything runs. */
  datatype Plan = Plan(notebook: Path, layout: Layout, markdown: Path, images: Path, post: Path)
  {
    /** The two `mkdir` calls. */
    function Mkdirs(): seq<Effect>
    {
      MakeDestinationDirs(layout)
    }

    /** The first move of `_move_nbconvert_output`: the markdown becomes the post. */
    function MoveMarkdown(): Effect
    {
      Move(markdown, post)
    }

    /** The second move of `_move_nbconvert_output`: the image directory becomes the asset directory. */
    function MoveImages(): Effect
    {
      Move(images, layout.assetDir)
    }
  }

  /** The plan for the notebook path `nb`. */
  function PlanOf(nb: Path): Plan
    requires nb.Valid()
  {
    Plan(nb, DestinationDirs(nb.Parent()), MarkdownOutput(nb), ImagesOutput(nb), PostPath(nb))
  }

  /** `t` with `es` performed before it. */
  function Prepend(es: seq<Effect>, t: Trace): Trace
  {
    Trace(es + t.effects, t.outcome)
  }

  /**
   * `main` up to and including `_move_nbconvert_output` on the notebook path
   * `nb`: the suffix check, then the destination directories.
   */
  function Relocate(nb: Path, env: Env): Trace
    requires nb.Valid()
  {
    if Suffixes(nb.Name()) != [NotebookSuffix] then Trace([], Raised(ValueError))
    else
      var p := PlanOf(nb);
      Prepend(p.Mkdirs(), Prepared(p, env, ApplyAll(env.existing, p.Mkdirs())))
  }

  /** After the `mkdir` calls, on the paths `fs` then existing: the asset-directory check, then the converter. */
  function Prepared(p: Plan, env: Env, fs: set<Path>): Trace
  {
    if Exists(fs, p.layout.assetDir) then Trace([], Exit(1))
    else Prepend([Convert(p.notebook, env.produced)], Converted(p, env, Apply(fs, Convert(p.notebook, env.produced))))
  }

  /** After the converter: its return-code check, then the markdown move. */
  function Converted(p: Plan, env: Env, fs: set<Path>): Trace
  {
    if env.returnCode != 0 then Trace([], Exit(1))
    else if p.markdown !in fs then Trace([], Raised(FileNotFound(p.markdown)))
    else Prepend([p.MoveMarkdown()], MarkdownMoved(p, Apply(fs, p.MoveMarkdown())))
  }

  /** After the markdown move: the image move. */
  function MarkdownMoved(p: Plan, fs: set<Path>): Trace
  {
    if p.images !in fs then Trace([], Raised(FileNotFound(p.images)))
    else Trace([p.MoveImages()], Completed)
  }

  /**
   * The root-relative link to the asset directory of `nbDir`'s post, as the
   * site built from `nbDir.parent / "_output"` serves it:
   * `"/" + IMG_PATH + "/" + nb_dir.name`, or `"/" + IMG_PATH` for a nameless
   * directory, whose posts share the asset root.
   */
  function AssetLink(nbDir: Path): string
  {
    "/" + Text.Join(ImgParts + NameParts(nbDir), "/")
  }

  /** `_rewrite_png_links` aimed at the post's own asset directory, where the converter's images are moved. */
  function RewritePngLinksToAssets(text: string, stem: string, nbDir: Path): string
  {
    Text.Replace(text, FilesDirName(stem), AssetLink(nbDir))
  }

  /** The write of the post, its links rewritten by `_rewrite_png_links` given the notebook stem. */
  function WritePost(nb: Path, markdown: string): Effect
    requires nb.Valid()
  {
    WriteFile(PostPath(nb), RewritePngLinks(markdown, Stem(nb.Name())))
  }

  /** The write of the post, its links aimed at the post's own asset directory. */
  function WritePostToAssets(nb: Path, markdown: string): Effect
    requires nb.Valid()
  {
    WriteFile(PostPath(nb), RewritePngLinksToAssets(markdown, Stem(nb.Name()), nb.Parent()))
  }

  /** `t` followed, when it completed, by `write`. */
  function Finish(t: Trace, write: Effect): Trace
  {
    if t.outcome != Completed then t else Trace(t.effects + [write], Completed)
  }

  /**
   * A run of the tool on the notebook path `nb`, with the link rewrite given
   * the notebook stem and otherwise as written: links still point at
   * `"/" + IMG_PATH`.
   */
  function RunOn(nb: Path, env: Env): Trace
    requires nb.Valid()
  {
    Finish(Relocate(nb, env), WritePost(nb, env.markdown))
  }

  /** A run that also aims the rewritten links at the post's own asset directory. */
  function RunToAssets(nb: Path, env: Env): Trace
    requires nb.Valid()
  {
    Finish(Relocate(nb, env), WritePostToAssets(nb, env.markdown))
  }

  /** A run of the tool on the command-line argument `arg`. */
  function Run(arg: string, env: Env): Trace
  {
    RunOn(Parse(arg), env)
  }

  /** A run as the code stands: `_rewrite_png_links` reads a name that is not in its scope. */
  function RunAsWritten(arg: string, env: Env): Trace
  {
    var t := Relocate(Parse(arg), env);
    if t.outcome != Completed then t else Trace(t.effects, Raised(NameError))
  }

  /** `p` is `d` itself or one of its ancestors. */
  predicate IsPrefixPath(p: Path, d: Path)
  {
    p.rooted == d.rooted && p.parts <= d.parts
  }

  lemma ApplyTwo(fs: set<Path>, e1: Effect, e2: Effect)
    ensures ApplyAll(fs, [e1, e2]) == Apply(Apply(fs, e1), e2)
  {
    assert [e1, e2][1..] == [e2];
    assert [e2][1..] == [];
    assert ApplyAll(Apply(fs, e1), [e2]) == ApplyAll(Apply(Apply(fs, e1), e2), []);
  }

  /** Effects applied in two batches have the same result as applied at once. */
  lemma {:induction false} ApplyAllAppend(fs: set<Path>, a: seq<Effect>, b: seq<Effect>)
    ensures ApplyAll(fs, a + b) == ApplyAll(ApplyAll(fs, a), b)
    decreases |a|
  {
    if |a| > 0 {
      assert (a + b)[0] == a[0] && (a + b)[1..] == a[1..] + b;
      ApplyAllAppend(Apply(fs, a[0]), a[1..], b);
    } else {
      assert a + b == b;
    }
  }

  /** The directories the two `mkdir` calls can create are the two targets and their ancestors. */
  lemma MadeDirs(l: Layout, fs: set<Path>, p: Path)
    requires p in ApplyAll(fs, MakeDestinationDirs(l)) && p !in fs
    ensures IsPrefixPath(p, l.postsDir) || IsPrefixPath(p, l.assetDir.Parent())
  {
    ApplyTwo(fs, MakeDirs(l.postsDir), MakeDirs(l.assetDir.Parent()));
  }

  /** The asset directory is neither one of the directories the `mkdir` calls create nor an ancestor of them. */
  lemma AssetDirNotMade(nbDir: Path)
    requires nbDir.Valid()
    ensures !IsPrefixPath(DestinationDirs(nbDir).assetDir, DestinationDirs(nbDir).postsDir)
    ensures !IsPrefixPath(DestinationDirs(nbDir).assetDir, DestinationDirs(nbDir).assetDir.Parent())
  {
    LayoutDirsApart(nbDir);
  }

  /** The `mkdir` calls create the asset directory only if it existed already. */
  lemma AssetDirSeenAsBefore(nbDir: Path, fs: set<Path>)
    requires nbDir.Valid()
    ensures DestinationDirs(nbDir).assetDir in ApplyAll(fs, MakeDestinationDirs(DestinationDirs(nbDir)))
        <==> DestinationDirs(nbDir).assetDir in fs
  {
    var l := DestinationDirs(nbDir);
    var mk := MakeDestinationDirs(l);
    ApplyTwo(fs, MakeDirs(l.postsDir), MakeDirs(l.assetDir.Parent()));
    if l.assetDir in ApplyAll(fs, mk) && l.assetDir !in fs {
      MadeDirs(l, fs, l.assetDir);
      AssetDirNotMade(nbDir);
      assert false;
    }
  }

  /** The asset directory ends in `..` exactly when the notebook's directory is named `..`. */
  lemma AssetDirDotDot(nbDir: Path)
    ensures DestinationDirs(nbDir).assetDir.Name() == ".." <==> nbDir.Name() == ".."
  {
  }

  /**
   * The abort check of `_create_destination_dirs` finds the asset directory
   * exactly when it existed before the run or the notebook's directory is
   * named `..`: then the asset directory resolves to the parent of the
   * directory the second `mkdir` has just made.
   */
  lemma AssetCheckSeesPriorState(nbDir: Path, fs: set<Path>)
    requires nbDir.Valid()
    ensures Exists(ApplyAll(fs, MakeDestinationDirs(DestinationDirs(nbDir))), DestinationDirs(nbDir).assetDir)
        <==> DestinationDirs(nbDir).assetDir in fs || nbDir.Name() == ".."
    ensures Exists(ApplyAll(fs, MakeDestinationDirs(DestinationDirs(nbDir))), DestinationDirs(nbDir).assetDir)
        <==> AssetTaken(DestinationDirs(nbDir), fs)
  {
    var l := DestinationDirs(nbDir);
    AssetDirSeenAsBefore(nbDir, fs);
    AssetDirDotDot(nbDir);
    ApplyTwo(fs, MakeDirs(l.postsDir), MakeDirs(l.assetDir.Parent()));
  }

  /** A plain component: the name of the notebook's directory, the post file or a converter output. */
  lemma ParentPlusName(p: Path)
    requires p.Valid()
    ensures p.parts == p.Parent().parts + NameParts(p) && p.Parent().rooted == p.rooted
  {
  }

  lemma PrefixComponent(x: seq<string>, c: string, d: seq<string>)
    requires x + [c] <= d
    ensures |x| < |d| && d[|x|] == c
  {
    assert (x + [c])[|x|] == c;
  }

  /** Names ending in ".md" or "_files" are none of the directory names the layout introduces. */
  lemma OutputNamesAreNotDirWords(stem: string)
    ensures stem + ".md" !in ["_output", "_posts", "assets"]
    ensures FilesDirName(stem) !in ["_output", "_posts", "assets"]
  {
    var m := stem + ".md";
    assert m[|m| - 1] == 'd';
    var f := FilesDirName(stem);
    assert f[|f| - 2] == 'e';
    assert "_output"[6] == 't' && "_posts"[5] == 's' && "assets"[5] == 's';
    assert "_output"[5] == 'u' && "_posts"[4] == 't' && "assets"[4] == 't';
  }

  /** A converter output next to the notebook is neither one of the directories `mkdir` creates nor their ancestor. */
  lemma OutputNotMade(nb: Path, c: string)
    requires nb.Valid() && IsComponent(c) && c !in ["_output", "_posts", "assets"]
    ensures !IsPrefixPath(nb.Parent().Join(c), DestinationDirs(nb.Parent()).postsDir)
    ensures !IsPrefixPath(nb.Parent().Join(c), DestinationDirs(nb.Parent()).assetDir.Parent())
  {
    var dir := nb.Parent();
    NameAndParentOfValid(nb);
    ParentPlusName(dir);
    JoinComponent(dir, c);
    var l := DestinationDirs(dir);
    var x := dir.parts;
    if IsPrefixPath(dir.Join(c), l.postsDir) {
      PrefixComponent(x, c, l.postsDir.parts);
      assert false;
    }
    if IsPrefixPath(dir.Join(c), l.assetDir.Parent()) {
      PrefixComponent(x, c, l.assetDir.Parent().parts);
      assert false;
    }
  }

  /** The converter's two outputs are plain components named after the notebook's stem. */
  lemma OutputNamesAreComponents(nb: Path)
    requires nb.Valid() && IsNotebookName(nb.Name())
    ensures IsComponent(Stem(nb.Name()) + ".md") && IsComponent(FilesDirName(Stem(nb.Name())))
    ensures IsComponent(PostFilename(nb))
  {
    var name := nb.Name();
    assert name != "";
    NameAndParentOfValid(nb);
    var stem := Stem(name);
    assert '/' !in stem;
    assert '/' !in ".md" && '/' !in "_files";
    assert (stem + ".md")[|stem| + 1] == 'm';
    assert FilesDirName(stem)[|stem|] == '_';
    NameAndParentOfValid(nb.Parent());
    assert PostFilename(nb)[|nb.Parent().Name()| + 1] == 'm';
  }

  /** The image directory is neither the markdown output nor the post, so moving the one leaves the other's check alone. */
  lemma OutputsDistinct(nb: Path)
    requires nb.Valid() && IsNotebookName(nb.Name())
    ensures ImagesOutput(nb) != MarkdownOutput(nb) && ImagesOutput(nb) != PostPath(nb)
  {
    OutputNamesAreComponents(nb);
    var stem := Stem(nb.Name());
    JoinComponent(nb.Parent(), stem + ".md");
    JoinComponent(nb.Parent(), FilesDirName(stem));
    JoinComponent(DestinationDirs(nb.Parent()).postsDir, PostFilename(nb));
    var f := FilesDirName(stem);
    var m := stem + ".md";
    var p := PostFilename(nb);
    assert f[|f| - 1] == 's' && m[|m| - 1] == 'd' && p[|p| - 1] == 'd';
  }

  /** Whether a converter output exists after the `mkdir` calls depends only on what existed before. */
  lemma OutputSeenAsBefore(nb: Path, fs: set<Path>, c: string)
    requires nb.Valid() && IsComponent(c) && c !in ["_output", "_posts", "assets"]
    ensures nb.Parent().Join(c) in ApplyAll(fs, MakeDestinationDirs(DestinationDirs(nb.Parent())))
        <==> nb.Parent().Join(c) in fs
  {
    var l := DestinationDirs(nb.Parent());
    var p := nb.Parent().Join(c);
    ApplyTwo(fs, MakeDirs(l.postsDir), MakeDirs(l.assetDir.Parent()));
    if p in ApplyAll(fs, MakeDestinationDirs(l)) && p !in fs {
      MadeDirs(l, fs, p);
      OutputNotMade(nb, c);
      assert false;
    }
  }

  lemma MarkdownSeenAsBefore(nb: Path, fs: set<Path>)
    requires nb.Valid() && IsNotebookName(nb.Name())
    ensures MarkdownOutput(nb) in ApplyAll(fs, MakeDestinationDirs(DestinationDirs(nb.Parent())))
        <==> MarkdownOutput(nb) in fs
  {
    var stem := Stem(nb.Name());
    OutputNamesAreComponents(nb);
    OutputNamesAreNotDirWords(stem);
    OutputSeenAsBefore(nb, fs, stem + ".md");
  }

  lemma ImagesSeenAsBefore(nb: Path, fs: set<Path>)
    requires nb.Valid() && IsNotebookName(nb.Name())
    ensures ImagesOutput(nb) in ApplyAll(fs, MakeDestinationDirs(DestinationDirs(nb.Parent())))
        <==> ImagesOutput(nb) in fs
  {
    var stem := Stem(nb.Name());
    OutputNamesAreComponents(nb);
    OutputNamesAreNotDirWords(stem);
    OutputSeenAsBefore(nb, fs, FilesDirName(stem));
  }

  /** After the converter, the image check sees the paths as they were before the markdown move. */
  lemma ConvertedOutcome(p: Plan, env: Env, fs: set<Path>)
    requires p.images != p.markdown && p.images != p.post
    ensures Converted(p, env, fs)
         == if env.returnCode != 0 then Trace([], Exit(1))
            else if p.markdown !in fs then Trace([], Raised(FileNotFound(p.markdown)))
            else if p.images !in fs then Trace([p.MoveMarkdown()], Raised(FileNotFound(p.images)))
            else Trace([p.MoveMarkdown(), p.MoveImages()], Completed)
  {
  }

  /**
   * After the `mkdir` calls, when the paths `fs` agree with `before` on the
   * asset directory and the two converter outputs, every check can be read
   * off `before` and the paths the converter produces.
   */
  lemma PreparedOutcome(p: Plan, env: Env, fs: set<Path>, before: set<Path>)
    requires p.images != p.markdown && p.images != p.post
    requires Exists(fs, p.layout.assetDir) <==> AssetTaken(p.layout, before)
    requires p.markdown in fs <==> p.markdown in before
    requires p.images in fs <==> p.images in before
    ensures Prepared(p, env, fs) == StagedFrom(p, env, before)
  {
    var convert := Convert(p.notebook, env.produced);
    ConvertedOutcome(p, env, fs + env.produced);
    assert [convert] + [p.MoveMarkdown()] == [convert, p.MoveMarkdown()];
    assert [convert] + [p.MoveMarkdown(), p.MoveImages()] == [convert, p.MoveMarkdown(), p.MoveImages()];
  }

  /**
   * The run after the `mkdir` calls with every check read off `before`, the
   * paths that existed before the run, and the paths the converter produces.
   */
  function StagedFrom(p: Plan, env: Env, before: set<Path>): Trace
  {
    var convert := Convert(p.notebook, env.produced);
    var after := before + env.produced;
    if AssetTaken(p.layout, before) then Trace([], Exit(1))
    else if env.returnCode != 0 then Trace([convert], Exit(1))
    else if p.markdown !in after then Trace([convert], Raised(FileNotFound(p.markdown)))
    else if p.images !in after then Trace([convert, p.MoveMarkdown()], Raised(FileNotFound(p.images)))
    else Trace([convert, p.MoveMarkdown(), p.MoveImages()], Completed)
  }

  /**
   * An accepted notebook's run up to the moves equals the `mkdir` calls
   * followed by `StagedFrom` on the paths that existed before the run: none
   * of the run's own effects changes what a later check sees.
   */
  lemma RelocateOutcome(nb: Path, env: Env)
    requires nb.Valid() && IsNotebookName(nb.Name())
    ensures Relocate(nb, env) == Prepend(PlanOf(nb).Mkdirs(), StagedFrom(PlanOf(nb), env, env.existing))
  {
    NotebookSuffixes(nb.Name());
    AssetCheckSeesPriorState(nb.Parent(), env.existing);
    MarkdownSeenAsBefore(nb, env.existing);
    ImagesSeenAsBefore(nb, env.existing);
    OutputsDistinct(nb);
    var p := PlanOf(nb);
    PreparedOutcome(p, env, ApplyAll(env.existing, p.Mkdirs()), env.existing);
  }

  lemma FinishPrepend(es: seq<Effect>, t: Trace, write: Effect)
    ensures Finish(Prepend(es, t), write) == Prepend(es, Finish(t, write))
  {
    if t.outcome == Completed {
      assert es + t.effects + [write] == es + (t.effects + [write]);
    }
  }

  /** An accepted notebook's run: the `mkdir` calls, then the rest of the run read off the paths existing before it. */
  lemma RunOutcome(nb: Path, env: Env)
    requires nb.Valid() && IsNotebookName(nb.Name())
    ensures RunOn(nb, env)
         == Prepend(PlanOf(nb).Mkdirs(), Finish(StagedFrom(PlanOf(nb), env, env.existing), WritePost(nb, env.markdown)))
  {
    RelocateOutcome(nb, env);
    FinishPrepend(PlanOf(nb).Mkdirs(), StagedFrom(PlanOf(nb), env, env.existing), WritePost(nb, env.markdown));
  }

  /** The asset-directory check of the staged run: an abort with nothing done, or the converter first. */
  lemma StagedAssetCheck(p: Plan, env: Env, before: set<Path>, write: Effect)
    ensures var s := Finish(StagedFrom(p, env, before), write);
            AssetTaken(p.layout, before) <==> s == Trace([], Exit(1))
    ensures var s := Finish(StagedFrom(p, env, before), write);
            !AssetTaken(p.layout, before) ==> |s.effects| > 0 && s.effects[0] == Convert(p.notebook, env.produced)
  {
  }

  /** When the staged run completes, and its effects when it does. */
  lemma StagedCompletes(p: Plan, env: Env, before: set<Path>, write: Effect)
    ensures var s := Finish(StagedFrom(p, env, before), write);
            var after := before + env.produced;
            (s.outcome == Completed
            <==> !AssetTaken(p.layout, before) && env.returnCode == 0 && p.markdown in after && p.images in after)
    ensures var s := Finish(StagedFrom(p, env, before), write);
            s.outcome == Completed ==> s.effects == [Convert(p.notebook, env.produced), p.MoveMarkdown(), p.MoveImages(), write]
  {
  }

  /** The staged run never raises `ValueError`, and an `exit` there has code 1 and comes before any move. */
  lemma StagedExits(p: Plan, env: Env, before: set<Path>, write: Effect)
    ensures Finish(StagedFrom(p, env, before), write).outcome != Raised(ValueError)
    ensures var s := Finish(StagedFrom(p, env, before), write);
            s.outcome.Exit? ==> s.outcome.code == 1 && MovesNothing(s.effects)
  {
  }

  /** The suffix check alone decides whether a run ends in `ValueError`, and such a run does nothing else. */
  lemma RejectsOtherSuffixes(nb: Path, env: Env)
    requires nb.Valid()
    ensures RunOn(nb, env).outcome == Raised(ValueError) <==> !IsNotebookName(nb.Name())
    ensures !IsNotebookName(nb.Name()) ==> RunOn(nb, env).effects == []
  {
    NotebookSuffixes(nb.Name());
    if IsNotebookName(nb.Name()) {
      RunOutcome(nb, env);
      StagedExits(PlanOf(nb), env, env.existing, WritePost(nb, env.markdown));
    }
  }

  /**
   * An existing asset directory, or a notebook directory named `..`, and
   * only these, stop an accepted run right after the `mkdir` calls.
   */
  lemma ExistingAssetDirAborts(nb: Path, env: Env)
    requires nb.Valid() && IsNotebookName(nb.Name())
    ensures PlanOf(nb).layout.assetDir in env.existing || nb.Parent().Name() == ".."
        <==> RunOn(nb, env) == Trace(PlanOf(nb).Mkdirs(), Exit(1))
  {
    RunOutcome(nb, env);
    AssetDirDotDot(nb.Parent());
    var mk := PlanOf(nb).Mkdirs();
    StagedAssetCheck(PlanOf(nb), env, env.existing, WritePost(nb, env.markdown));
    assert mk + [] == mk;
  }

  /** With a new asset directory, the converter call comes right after the `mkdir` calls. */
  lemma ConverterRunsNext(nb: Path, env: Env)
    requires nb.Valid() && IsNotebookName(nb.Name())
    requires PlanOf(nb).layout.assetDir !in env.existing && nb.Parent().Name() != ".."
    ensures |RunOn(nb, env).effects| > 2 && RunOn(nb, env).effects[..3] == PlanOf(nb).Mkdirs() + [Convert(nb, env.produced)]
  {
    RunOutcome(nb, env);
    AssetDirDotDot(nb.Parent());
    var s := Finish(StagedFrom(PlanOf(nb), env, env.existing), WritePost(nb, env.markdown));
    StagedAssetCheck(PlanOf(nb), env, env.existing, WritePost(nb, env.markdown));
    PrependFirst(PlanOf(nb).Mkdirs(), s.effects);
  }

  lemma PrependFirst(a: seq<Effect>, b: seq<Effect>)
    requires |b| > 0
    ensures (a + b)[..|a| + 1] == a + [b[0]]
  {
  }

  /** A non-zero return code from the converter ends the run with `exit(1)` right after the converter call. */
  lemma ConverterFailureExits(nb: Path, env: Env)
    requires nb.Valid() && IsNotebookName(nb.Name())
    requires PlanOf(nb).layout.assetDir !in env.existing && nb.Parent().Name() != ".." && env.returnCode != 0
    ensures RunOn(nb, env) == Trace(PlanOf(nb).Mkdirs() + [Convert(nb, env.produced)], Exit(1))
  {
    RunOutcome(nb, env);
    AssetDirDotDot(nb.Parent());
  }

  /**
   * A converter output that exists neither before the run nor among the
   * converter's products makes the move of it raise `FileNotFoundError`;
   * the markdown is moved first, so a missing image directory is found only
   * after the post is in place.
   */
  lemma MissingOutputRaises(nb: Path, env: Env)
    requires nb.Valid() && IsNotebookName(nb.Name())
    requires PlanOf(nb).layout.assetDir !in env.existing && nb.Parent().Name() != ".." && env.returnCode == 0
    ensures var p := PlanOf(nb);
            (p.markdown !in env.existing + env.produced
            ==> RunOn(nb, env) == Trace(p.Mkdirs() + [Convert(nb, env.produced)], Raised(FileNotFound(p.markdown))))
    ensures var p := PlanOf(nb);
            (p.markdown in env.existing + env.produced && p.images !in env.existing + env.produced
            ==> RunOn(nb, env) == Trace(p.Mkdirs() + [Convert(nb, env.produced), p.MoveMarkdown()], Raised(FileNotFound(p.images))))
  {
    RunOutcome(nb, env);
    AssetDirDotDot(nb.Parent());
  }

  /**
   * A run completes exactly when the suffix check passes, the asset
   * directory is new and the notebook's directory is not `..`, the converter succeeds and both of its outputs exist;
   * a completed run makes the two directories, converts, moves the markdown
   * to the post and the images to the asset directory, and writes the post.
   */
  lemma CompletesExactly(nb: Path, env: Env)
    requires nb.Valid()
    ensures var p := PlanOf(nb);
            var after := env.existing + env.produced;
            (RunOn(nb, env).outcome == Completed
            <==> IsNotebookName(nb.Name()) && p.layout.assetDir !in env.existing && nb.Parent().Name() != ".."
                   && env.returnCode == 0
                   && p.markdown in after && p.images in after)
    ensures var p := PlanOf(nb);
            (RunOn(nb, env).outcome == Completed
            ==> RunOn(nb, env).effects
                  == p.Mkdirs() + [Convert(nb, env.produced), p.MoveMarkdown(), p.MoveImages(), WritePost(nb, env.markdown)])
  {
    NotebookSuffixes(nb.Name());
    if IsNotebookName(nb.Name()) {
      RunOutcome(nb, env);
      AssetDirDotDot(nb.Parent());
      StagedCompletes(PlanOf(nb), env, env.existing, WritePost(nb, env.markdown));
    }
  }

  /** None of the effects moves or writes anything. */
  predicate MovesNothing(effects: seq<Effect>)
  {
    forall k :: 0 <= k < |effects| ==> effects[k].MakeDirs? || effects[k].Convert?
  }

  lemma MovesNothingAppend(a: seq<Effect>, b: seq<Effect>)
    requires MovesNothing(a) && MovesNothing(b)
    ensures MovesNothing(a + b)
  {
    forall k | 0 <= k < |a + b|
      ensures (a + b)[k].MakeDirs? || (a + b)[k].Convert?
    {
      if k >= |a| {
        assert (a + b)[k] == b[k - |a|];
      }
    }
  }

  /** A run that ends in `exit` ends with code 1 and has moved and written nothing. */
  lemma ExitMovesNothing(nb: Path, env: Env)
    requires nb.Valid()
    ensures RunOn(nb, env).outcome.Exit? ==> RunOn(nb, env).outcome.code == 1 && MovesNothing(RunOn(nb, env).effects)
  {
    NotebookSuffixes(nb.Name());
    if IsNotebookName(nb.Name()) {
      RunOutcome(nb, env);
      var p := PlanOf(nb);
      var s := Finish(StagedFrom(p, env, env.existing), WritePost(nb, env.markdown));
      StagedExits(p, env, env.existing, WritePost(nb, env.markdown));
      if s.outcome.Exit? {
        MovesNothingAppend(p.Mkdirs(), s.effects);
      }
    }
  }

  /** The site root: the published site is built from `nb_dir.parent / "_output"`. */
  function SiteRoot(nbDir: Path): Path
  {
    Path(nbDir.Parent().rooted, nbDir.Parent().parts + ["_output"])
  }

  /** The file a root-relative link of the site built from `site` points at. */
  function Resolve(site: Path, link: string): Path
  {
    Path(site.rooted, site.parts + Parse(link).parts)
  }

  /** A slash, the components joined by slashes, a slash and one more component: the rooted path of those components. */
  lemma RootedLink(parts: seq<string>, file: string)
    requires |parts| > 0 && forall k :: 0 <= k < |parts| ==> IsComponent(parts[k])
    requires IsComponent(file)
    ensures Parse("/" + Text.Join(parts, "/") + "/" + file) == Path(true, parts + [file])
  {
    ComponentsSnoc(parts, file);
    FormatSnoc(parts, file);
    ParseFormatRoundTrip(Path(true, parts + [file]));
  }

  lemma ComponentsSnoc(parts: seq<string>, file: string)
    requires forall k :: 0 <= k < |parts| ==> IsComponent(parts[k])
    requires IsComponent(file)
    ensures Path(true, parts + [file]).Valid()
  {
    var q := Path(true, parts + [file]);
    forall k | 0 <= k < |q.parts|
      ensures IsComponent(q.parts[k])
    {
      if k < |parts| { assert q.parts[k] == parts[k]; }
    }
  }

  lemma FormatSnoc(parts: seq<string>, file: string)
    requires |parts| > 0
    ensures "/" + Text.Join(parts, "/") + "/" + file == Format(Path(true, parts + [file]))
  {
    Text.JoinSnoc(parts, file, "/");
  }

  /** The converter's own link to an image file: its image directory, a slash, the file name. */
  function ConverterLink(stem: string, file: string): string
  {
    FilesDirName(stem) + "/" + file
  }

  /** Rewriting a lone converter link replaces its directory part and keeps the file name. */
  lemma RewriteLoneLink(stem: string, file: string, rep: string)
    requires '/' !in stem && !Text.Contains(file, FilesDirName(stem))
    ensures Text.Replace(ConverterLink(stem, file), FilesDirName(stem), rep) == rep + "/" + file
  {
    var pat := FilesDirName(stem);
    assert pat[0] != '/' by {
      if stem == "" { assert pat[0] == '_'; } else { assert pat[0] == stem[0]; }
    }
    Text.ReplaceLoneMatch(pat, '/', file, rep);
    assert pat + "/" + file == pat + ['/'] + file;
  }

  /**
   * As written, a converter link to an image is rewritten to
   * `/assets/img/blog/<file>`, which reaches the moved image only when the
   * notebook's directory has no name: the post's own asset directory is
   * left out of the link.
   */
  lemma AsWrittenLinkMissesAsset(nbDir: Path, stem: string, file: string)
    requires nbDir.Valid() && '/' !in stem && IsComponent(file) && !Text.Contains(file, FilesDirName(stem))
    ensures RewritePngLinks(ConverterLink(stem, file), stem) == "/" + ImgPath + "/" + file
    ensures (Resolve(SiteRoot(nbDir), RewritePngLinks(ConverterLink(stem, file), stem))
             == DestinationDirs(nbDir).assetDir.Join(file))
        <==> nbDir.Name() == ""
  {
    RewriteLoneLink(stem, file, "/" + ImgPath);
    assert Parse(RewritePngLinks(ConverterLink(stem, file), stem)) == Path(true, ImgParts + [file]) by {
      ImgPathJoined();
      ImgPathComponents();
      RootedLink(ImgParts, file);
    }
    var asset := DestinationDirs(nbDir).assetDir;
    JoinComponent(asset, file);
    var base := nbDir.Parent().parts + ["_output"];
    if nbDir.Name() == "" {
      assert base + (ImgParts + [file]) == asset.parts + [file];
    } else {
      assert |base + (ImgParts + [file])| != |asset.parts + [file]|;
    }
  }

  /** The asset link followed by a file name parses as the rooted path of the asset directory's components and the file. */
  lemma AssetLinkParses(nbDir: Path, file: string)
    requires nbDir.Valid() && IsComponent(file)
    ensures Parse(AssetLink(nbDir) + "/" + file) == Path(true, ImgParts + NameParts(nbDir) + [file])
  {
    ImgPathComponents();
    NameAndParentOfValid(nbDir);
    var parts := ImgParts + NameParts(nbDir);
    assert forall k :: 0 <= k < |parts| ==> IsComponent(parts[k]);
    RootedLink(parts, file);
  }

  /** With the post's asset directory in the target, a converter link resolves to the moved image file. */
  lemma LinkReachesAsset(nbDir: Path, stem: string, file: string)
    requires nbDir.Valid() && '/' !in stem && IsComponent(file) && !Text.Contains(file, FilesDirName(stem))
    ensures Resolve(SiteRoot(nbDir), RewritePngLinksToAssets(ConverterLink(stem, file), stem, nbDir))
         == DestinationDirs(nbDir).assetDir.Join(file)
  {
    assert Parse(RewritePngLinksToAssets(ConverterLink(stem, file), stem, nbDir))
        == Path(true, ImgParts + NameParts(nbDir) + [file]) by {
      RewriteLoneLink(stem, file, AssetLink(nbDir));
      AssetLinkParses(nbDir, file);
    }
    var asset := DestinationDirs(nbDir).assetDir;
    JoinComponent(asset, file);
    var base := nbDir.Parent().parts + ["_output"];
    assert base + (ImgParts + NameParts(nbDir) + [file]) == asset.parts + [file];
  }

  /**
   * Aiming the links at the asset directory changes the written post and
   * nothing else: the same outcome, the same steps before the write.
   */
  lemma AssetLinksChangeOnlyThePost(nb: Path, env: Env)
    requires nb.Valid()
    ensures RunToAssets(nb, env).outcome == RunOn(nb, env).outcome
    ensures RunOn(nb, env).outcome != Completed ==> RunToAssets(nb, env) == RunOn(nb, env)
    ensures var p := PlanOf(nb);
            RunToAssets(nb, env).outcome == Completed
            ==> RunToAssets(nb, env).effects
                  == p.Mkdirs() + [Convert(nb, env.produced), p.MoveMarkdown(), p.MoveImages(), WritePostToAssets(nb, env.markdown)]
  {
    NotebookSuffixes(nb.Name());
    if IsNotebookName(nb.Name()) {
      var p, w := PlanOf(nb), WritePostToAssets(nb, env.markdown);
      RelocateOutcome(nb, env);
      FinishPrepend(p.Mkdirs(), StagedFrom(p, env, env.existing), w);
      StagedCompletes(p, env, env.existing, w);
    }
  }

  /** A directory a move creates survives a later file write. */
  lemma MovedThenWritten(fs: set<Path>, done: seq<Effect>, src: Path, dst: Path, file: Path, contents: string)
    ensures dst in ApplyAll(fs, done + [Move(src, dst), WriteFile(file, contents)])
  {
    ApplyAllAppend(fs, done, [Move(src, dst), WriteFile(file, contents)]);
    ApplyTwo(ApplyAll(fs, done), Move(src, dst), WriteFile(file, contents));
  }

  /** A completed run was on a notebook name and ends with the move of the images and the write of the post. */
  lemma CompletedEndsWithImagesAndPost(nb: Path, env: Env)
    requires nb.Valid() && RunOn(nb, env).outcome == Completed
    ensures IsNotebookName(nb.Name())
    ensures var p := PlanOf(nb);
            RunOn(nb, env).effects
              == (p.Mkdirs() + [Convert(nb, env.produced), p.MoveMarkdown()]) + [p.MoveImages(), WritePost(nb, env.markdown)]
  {
    CompletesExactly(nb, env);
  }

  /**
   * Running the tool again on the same notebook, once a run has completed
   * and its effects are in place, stops at the asset-directory check: the
   * first run moved the images there.
   */
  lemma RetryAborts(nb: Path, env: Env, env2: Env)
    requires nb.Valid() && RunOn(nb, env).outcome == Completed
    requires ApplyAll(env.existing, RunOn(nb, env).effects) <= env2.existing
    ensures RunOn(nb, env2) == Trace(PlanOf(nb).Mkdirs(), Exit(1))
  {
    var p := PlanOf(nb);
    var w := WritePost(nb, env.markdown);
    var done := p.Mkdirs() + [Convert(nb, env.produced), p.MoveMarkdown()];
    CompletedEndsWithImagesAndPost(nb, env);
    MovedThenWritten(env.existing, done, p.images, p.layout.assetDir, w.file, w.contents);
    ExistingAssetDirAborts(nb, env2);
  }

  /** `Relocate` never ends in `NameError`: that error belongs to the rewrite step. */
  lemma RelocateRaisesNoNameError(nb: Path, env: Env)
    requires nb.Valid()
    ensures Relocate(nb, env).outcome != Raised(NameError)
  {
    NotebookSuffixes(nb.Name());
    if IsNotebookName(nb.Name()) {
      RelocateOutcome(nb, env);
    }
  }

  /**
   * As written, every run that gets past the moves ends in `NameError`
   * with the post never rewritten; otherwise it behaves like the corrected
   * run. No run as written completes.
   */
  lemma AsWrittenNeverRewrites(arg: string, env: Env)
    ensures RunAsWritten(arg, env).outcome != Completed
    ensures RunAsWritten(arg, env).outcome == Raised(NameError) <==> Run(arg, env).outcome == Completed
    ensures Run(arg, env).outcome == Completed
        ==> Run(arg, env).effects == RunAsWritten(arg, env).effects + [WritePost(Parse(arg), env.markdown)]
    ensures Run(arg, env).outcome != Completed ==> RunAsWritten(arg, env) == Run(arg, env)
  {
    RelocateRaisesNoNameError(Parse(arg), env);
  }

  /** The rewrite is a split on the converter's directory name joined back with the new prefix. */
  lemma RewriteIsSplitJoin(text: string, stem: string, nbDir: Path)
    ensures RewritePngLinks(text, stem) == Text.Join(Text.Split(text, FilesDirName(stem)), "/" + ImgPath)
    ensures RewritePngLinksToAssets(text, stem, nbDir) == Text.Join(Text.Split(text, FilesDirName(stem)), AssetLink(nbDir))
  {
    Text.ReplaceIsJoinOfSplit(text, FilesDirName(stem), "/" + ImgPath);
    Text.ReplaceIsJoinOfSplit(text, FilesDirName(stem), AssetLink(nbDir));
  }

  /** A text without the converter's directory name is left as it is, such as a post with no image. */
  lemma RewriteWithoutLinks(text: string, stem: string, nbDir: Path)
    requires !Text.Contains(text, FilesDirName(stem))
    ensures RewritePngLinks(text, stem) == text
    ensures RewritePngLinksToAssets(text, stem, nbDir) == text
  {
    Text.ReplaceWithoutMatch(text, FilesDirName(stem), "/" + ImgPath);
    Text.ReplaceWithoutMatch(text, FilesDirName(stem), AssetLink(nbDir));
  }
}
