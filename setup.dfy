/** The version string `setup.py` derives from git: the last merged tag,
    the head commit and whether tracked files are modified. Each git call is
    a parameter holding what the call would produce. */
module Setup {
  import opened Options
  import opened Strings

  /** How a `subprocess.check_output` call can fail: git ran and exited
      non-zero (`CalledProcessError`), or git could not be started at all. */
  datatype Failure = NonZeroExit | CannotRun

  datatype Run<T> = Ran(out: T) | Fails(failure: Failure)

  /** The outputs of the four git calls: the tag list (split into lines),
      `git rev-list -n 1 <tag>` for each tag, `git rev-parse HEAD`, and
      `git status -s -uno`. */
  datatype Git = Git(tags: Run<seq<string>>, revList: string -> Run<string>, head: Run<string>, status: Run<string>)

  /** The version part taken from a tag name: the name stripped, one leading
      `v` removed. */
  function TagVersion(tag: string): (r: string)
    ensures var t := Strip(tag, PyWhitespace);
            StartsWith(t, "v") ==> "v" + r == t
    ensures var t := Strip(tag, PyWhitespace);
            !StartsWith(t, "v") ==> r == t
  {
    var t := Strip(tag, PyWhitespace);
    if StartsWith(t, "v") then t[1..] else t
  }

  /** The last merged tag, as `git tag` lists it. */
  function LastTag(git: Git): string
    requires git.tags.Ran? && git.tags.out != []
  {
    git.tags.out[|git.tags.out| - 1]
  }

  /** The last tag stripped: the name `git rev-list` is asked about. */
  function TagName(git: Git): string
    requires git.tags.Ran? && git.tags.out != []
  {
    Strip(LastTag(git), PyWhitespace)
  }

  /** The calls the base version needs succeed: `git tag`, and `git
      rev-list` for the last tag when there is one. */
  predicate BaseRan(git: Git)
  {
    git.tags.Ran? && (git.tags.out != [] ==> git.revList(TagName(git)).Ran?)
  }

  /** The sha the last tag points at. */
  function TagSha(git: Git): string
    requires BaseRan(git) && git.tags.out != []
  {
    Strip(git.revList(TagName(git)).out, PyWhitespace)
  }

  /** The version part of the base: `0.0`, or the last tag's. */
  function BaseVersion(git: Git): string
    requires git.tags.Ran?
  {
    if git.tags.out == [] then "0.0" else TagVersion(LastTag(git))
  }

  /** The sha the hash suffix is compared with: none without tags. */
  function BaseSha(git: Git): Option<string>
    requires BaseRan(git)
  {
    if git.tags.out == [] then None else Some(TagSha(git))
  }

  /** The version before the local part, and the sha of the tag it came
      from, or the failure of `git tag` or of `git rev-list`. */
  function Base(git: Git): Run<(string, Option<string>)>
  {
    if git.tags.Fails? then Fails(git.tags.failure)
    else if !BaseRan(git) then Fails(git.revList(TagName(git)).failure)
    else Ran((BaseVersion(git), BaseSha(git)))
  }

  function HeadSha(git: Git): string
    requires git.head.Ran?
  {
    Strip(git.head.out, PyWhitespace)
  }

  /** The hash suffix: `+` and the first eight characters of the head sha,
      unless HEAD is the tagged commit. */
  function WithHash(version: string, tagsha: Option<string>, headsha: string): string
  {
    if tagsha != Some(headsha) then version + "+" + Take(headsha, 8) else version
  }

  /** A working tree is dirty when the status output has anything in it but
      ASCII whitespace. */
  predicate Dirty(git: Git)
    requires git.status.Ran?
  {
    Strip(git.status.out, AsciiWhitespace) != []
  }

  /** The dirty marker, joined with `.` when the version already has a local
      part and with `+` otherwise. */
  function WithDirty(version: string, dirty: bool): string
  {
    if !dirty then version
    else if '+' in version then version + ".dirty"
    else version + "+dirty"
  }

  /** Every call succeeds. */
  predicate AllRan(git: Git)
  {
    BaseRan(git) && git.head.Ran? && git.status.Ran?
  }

  /** `version_git()`: the version, or the failure of the first git call that
      fails, in the order the calls are made. A version comes out exactly
      when every call the source makes, `git rev-list` included, ran. */
  function VersionGit(git: Git): (r: Run<string>)
    ensures r.Ran? <==> AllRan(git)
    ensures git.tags.Fails? ==> r == Fails(git.tags.failure)
  {
    match Base(git)
    case Fails(e) => Fails(e)
    case Ran((version, tagsha)) =>
      if git.head.Fails? then Fails(git.head.failure)
      else if git.status.Fails? then Fails(git.status.failure)
      else Ran(WithDirty(WithHash(version, tagsha, HeadSha(git)), Dirty(git)))
  }

  /** What `version()` hands to `setup`: the version, `None` when a git call
      exited non-zero, or the exception when git could not be run. */
  datatype Outcome = Returns(version: Option<string>) | Raises

  function Version(git: Git): (r: Outcome)
    ensures r == Raises <==> VersionGit(git) == Fails(CannotRun)
    ensures r == Returns(None) <==> VersionGit(git) == Fails(NonZeroExit)
    ensures r.Returns? && r.version.Some? <==> VersionGit(git).Ran?
    ensures VersionGit(git).Ran? ==> r == Returns(Some(VersionGit(git).out))
  {
    match VersionGit(git)
    case Ran(v) => Returns(Some(v))
    case Fails(NonZeroExit) => Returns(None)
    case Fails(CannotRun) => Raises
  }

  /** When every call succeeds, the version is the base, then the hash
      suffix, then the dirty marker. */
  lemma Stages(git: Git)
    requires AllRan(git)
    ensures VersionGit(git) == Ran(WithDirty(WithHash(BaseVersion(git), BaseSha(git), HeadSha(git)), Dirty(git)))
  {
    if git.tags.out != [] {
      assert Base(git) == Ran((BaseVersion(git), BaseSha(git)));
    }
  }

  lemma UntaggedShape(headsha: string, dirty: bool)
    ensures WithDirty(WithHash("0.0", None, headsha), dirty)
            == "0.0+" + Take(headsha, 8) + (if dirty then ".dirty" else "")
  {
    var v := "0.0" + "+" + Take(headsha, 8);
    assert v == "0.0+" + Take(headsha, 8);
    assert v[3] == '+';
  }

  /** Without tags the version is `0.0+` and eight characters of the head sha,
      with `.dirty` after them for a dirty tree. */
  lemma Untagged(git: Git)
    requires AllRan(git) && git.tags.out == []
    ensures VersionGit(git) == Ran("0.0+" + Take(HeadSha(git), 8) + (if Dirty(git) then ".dirty" else ""))
  {
    Stages(git);
    UntaggedShape(HeadSha(git), Dirty(git));
  }

  lemma ExtendsBase(base: string, tagsha: Option<string>, headsha: string, dirty: bool)
    ensures StartsWith(WithDirty(WithHash(base, tagsha, headsha), dirty), base)
  {
    var v := WithHash(base, tagsha, headsha);
    assert v[..|base|] == base;
    assert WithDirty(v, dirty)[..|v|] == v;
  }

  /** With tags, the version starts with the last tag's version part. */
  lemma TaggedBase(git: Git)
    requires AllRan(git) && git.tags.out != []
    ensures VersionGit(git).Ran? && StartsWith(VersionGit(git).out, TagVersion(LastTag(git)))
  {
    Stages(git);
    ExtendsBase(BaseVersion(git), BaseSha(git), HeadSha(git), Dirty(git));
  }

  /** The head hash is appended exactly when HEAD is not the tagged commit
      or there is no tag. */
  lemma HashAppended(git: Git)
    requires AllRan(git)
    ensures var hashed := BaseVersion(git) + "+" + Take(HeadSha(git), 8);
            var v := VersionGit(git).out;
            VersionGit(git).Ran?
            && (if git.tags.out == [] || TagSha(git) != HeadSha(git)
                then StartsWith(v, hashed)
                else v == WithDirty(BaseVersion(git), Dirty(git)))
  {
    Stages(git);
    var hashed := BaseVersion(git) + "+" + Take(HeadSha(git), 8);
    assert WithDirty(hashed, Dirty(git))[..|hashed|] == hashed;
  }

  /** A dirty tree ends the version with `dirty`, after `.` when the version
      already had a `+` and after `+` otherwise; a clean tree adds nothing. */
  lemma DirtyMarker(git: Git)
    requires AllRan(git)
    ensures var before := WithHash(BaseVersion(git), BaseSha(git), HeadSha(git));
            var v := VersionGit(git).out;
            VersionGit(git).Ran?
            && (Dirty(git) && '+' in before ==> v == before + ".dirty")
            && (Dirty(git) && '+' !in before ==> v == before + "+dirty")
            && (!Dirty(git) ==> v == before)
  {
    Stages(git);
  }

  /** The version is exactly the tag's version part if and only if the tree
      is clean and HEAD is the tagged commit. */
  lemma ReleaseVersion(git: Git)
    requires AllRan(git) && git.tags.out != []
    ensures VersionGit(git) == Ran(TagVersion(LastTag(git)))
            <==> !Dirty(git) && TagSha(git) == HeadSha(git)
  {
    Stages(git);
    var base := BaseVersion(git);
    var v := WithHash(base, BaseSha(git), HeadSha(git));
    assert |v| >= |base| && (TagSha(git) != HeadSha(git) ==> |v| > |base|);
    assert |WithDirty(v, Dirty(git))| >= |v| && (Dirty(git) ==> |WithDirty(v, Dirty(git))| > |v|);
  }

  lemma OnePlusShape(base: string, tagsha: Option<string>, headsha: string, dirty: bool)
    requires '+' !in base && '+' !in Take(headsha, 8)
    ensures var v := WithDirty(WithHash(base, tagsha, headsha), dirty);
            multiset(v)['+'] <= 1 && ('+' in v <==> dirty || tagsha != Some(headsha))
  {
    var h := Take(headsha, 8);
    assert multiset(base)['+'] == 0;
    assert multiset(h)['+'] == 0;
    var before := WithHash(base, tagsha, headsha);
    if tagsha != Some(headsha) {
      assert before == base + "+" + h;
      assert multiset(before) == multiset(base) + multiset("+") + multiset(h);
      assert multiset(before)['+'] == 1;
    } else {
      assert multiset(before)['+'] == 0;
    }
    var v := WithDirty(before, dirty);
    if dirty {
      if '+' in before {
        assert multiset(v) == multiset(before) + multiset(".dirty");
        assert multiset(".dirty")['+'] == 0;
      } else {
        assert multiset(v) == multiset(before) + multiset("+dirty");
        assert multiset("+dirty")['+'] == 1;
        assert v[|before|] == '+';
      }
    }
  }

  /** A version without a `+` of its own gets at most one: the local part is
      marked once, whether it holds the hash, `dirty` or both. */
  lemma OnePlus(git: Git)
    requires AllRan(git)
    requires '+' !in BaseVersion(git)
    requires '+' !in Take(HeadSha(git), 8)
    ensures var v := VersionGit(git).out;
            VersionGit(git).Ran?
            && multiset(v)['+'] <= 1
            && ('+' in v <==> Dirty(git) || git.tags.out == [] || TagSha(git) != HeadSha(git))
  {
    Stages(git);
    OnePlusShape(BaseVersion(git), BaseSha(git), HeadSha(git), Dirty(git));
  }

  /** `version()` never lets a non-zero git exit through: it yields a version
      or `None`, and raises only when git cannot be run. */
  lemma VersionFallback(git: Git)
    requires !git.tags.Fails? || git.tags.failure == NonZeroExit
    requires !git.head.Fails? || git.head.failure == NonZeroExit
    requires !git.status.Fails? || git.status.failure == NonZeroExit
    requires forall t :: !git.revList(t).Fails? || git.revList(t).failure == NonZeroExit
    ensures Version(git).Returns?
  {
  }
}
