/**
 * The test `EventHandler.on_any_event` applies before grabbing: walk the ancestors of
 * the changed path with `os.path.split` while they are at least as long as the output
 * directory, and drop the event when one of them is the output directory itself.
 */
module ChangeFilter {
  import opened PosixPath

  /**
   * Trigger: the handler goes on to grab. Ignore: it returns early. Spin: the head
   * reached is all slashes, splits to itself and is never shorter, so the loop of the
   * handler never ends and it grabs nothing.
   */
  datatype Verdict = Trigger | Ignore | Spin

  /** The handler's loop from the ancestor h on, against the output directory `ignore`. */
  function Walk(ignore: string, h: string): (v: Verdict)
    ensures v == Ignore ==> |ignore| <= |h| && h[..|ignore|] == ignore
    ensures v == Spin ==> |ignore| <= |h|
    decreases |h|
  {
    if |h| < |ignore| then Trigger
    else if h == ignore then Ignore
    else
      var next := Split(h).0;
      if |next| < |h| then
        assert h[..|next|] == next;
        Walk(ignore, next)
      else Spin
  }

  /** The loop starts from the parent: the changed path itself is never compared. */
  function EventVerdict(ignore: string, src: string): (v: Verdict)
    ensures v == Ignore ==> |ignore| <= |src| && src[..|ignore|] == ignore
  {
    var head := Split(src).0;
    assert src[..|head|] == head;
    Walk(ignore, head)
  }

  /** What `os.path.abspath` gives for any directory but the root: no trailing '/'. */
  predicate IsOutputDir(ignore: string) {
    |ignore| > 0 && ignore[|ignore| - 1] != '/'
  }

  /** p lies inside the directory `dir`: it starts with dir followed by '/'. */
  predicate Under(dir: string, p: string) {
    |p| > |dir| && p[..|dir|] == dir && p[|dir|] == '/'
  }

  /** The head of a path inside dir is dir itself or again inside dir. */
  lemma HeadOfUnder(dir: string, p: string)
    requires IsOutputDir(dir) && Under(dir, p)
    ensures Split(p).0 == dir || Under(dir, Split(p).0)
  {
    var i := HeadLength(p);
    assert i > |dir|;
    var head := p[..i];
    assert head[|dir| - 1] == dir[|dir| - 1] != '/';
    assert !AllSlashes(head);
    var r := RStripSlashes(head);
    assert Split(p).0 == r;
    assert r[..|dir|] == head[..|dir|] == dir;
    if |r| > |dir| {
      assert r[|dir|] == head[|dir|] == p[|dir|];
    }
  }

  lemma {:induction false} WalkUnder(dir: string, h: string)
    requires IsOutputDir(dir) && (h == dir || Under(dir, h))
    ensures Walk(dir, h) == Ignore
    decreases |h|
  {
    if h != dir {
      HeadOfUnder(dir, h);
      assert !AllSlashes(h) by {
        assert h[|dir| - 1] == dir[|dir| - 1];
      }
      WalkUnder(dir, Split(h).0);
    }
  }

  lemma {:induction false} IgnoredOnlyUnder(dir: string, h: string)
    requires IsOutputDir(dir) && Walk(dir, h) == Ignore
    ensures h == dir || Under(dir, h)
    decreases |h|
  {
    if h != dir {
      var next := Split(h).0;
      IgnoredOnlyUnder(dir, next);
      if next == dir {
        assert !AllSlashes(next) by {
          assert next[|dir| - 1] != '/';
        }
      }
      assert h[..|next|] == next;
      assert h[..|dir|] == next[..|dir|];
    }
  }

  /**
   * For an output directory with no trailing '/', an event is dropped exactly when its
   * path lies inside the output directory: `/out/a/b/x` is dropped, `/out2/x` is not.
   */
  lemma IgnoredIff(dir: string, src: string)
    requires IsOutputDir(dir)
    ensures EventVerdict(dir, src) == Ignore <==> Under(dir, src)
  {
    if Under(dir, src) {
      HeadOfUnder(dir, src);
      WalkUnder(dir, Split(src).0);
    }
    if EventVerdict(dir, src) == Ignore {
      var h := Split(src).0;
      IgnoredOnlyUnder(dir, h);
      if h == dir {
        assert !AllSlashes(h) by {
          assert h[|dir| - 1] != '/';
        }
      }
      assert src[..|h|] == h;
      assert src[..|dir|] == h[..|dir|];
    }
  }

  /** The loop spins only on a head of two or more slashes, so only on a path starting "//". */
  lemma {:induction false} SpinNeedsDoubleSlash(dir: string, h: string)
    requires |dir| >= 2 && Walk(dir, h) == Spin
    ensures |h| >= 2 && h[0] == '/' && h[1] == '/'
    decreases |h|
  {
    var next := Split(h).0;
    if |next| < |h| {
      SpinNeedsDoubleSlash(dir, next);
      assert h[..|next|] == next;
    }
  }

  /**
   * For an absolute output directory other than the root, and an event path that does not
   * start with "//", the handler grabs exactly when the path is not inside the output
   * directory.
   */
  lemma TriggerIff(dir: string, src: string)
    requires IsOutputDir(dir) && dir[0] == '/'
    requires !(|src| >= 2 && src[0] == '/' && src[1] == '/')
    ensures EventVerdict(dir, src) == Trigger <==> !Under(dir, src)
  {
    IgnoredIff(dir, src);
    if EventVerdict(dir, src) == Spin {
      var h := Split(src).0;
      SpinNeedsDoubleSlash(dir, h);
      assert false;
    }
  }

  /**
   * The snapshot the system writes to `<out>/<dir>/<seconds>.html` is never taken for an
   * outside change, whatever the directory and file names are.
   */
  lemma SnapshotWriteIgnored(out: string, dir: string, name: string)
    requires IsOutputDir(out)
    ensures EventVerdict(out, out + "/" + dir + "/" + name) == Ignore
  {
    var p := out + "/" + dir + "/" + name;
    assert p[..|out|] == out && p[|out|] == '/';
    IgnoredIff(out, p);
  }

  /**
   * A change reported for the output directory itself is not filtered: the walk starts
   * at its parent, which is shorter than the output directory.
   */
  lemma OutputDirEventTriggers(dir: string)
    requires IsOutputDir(dir)
    ensures EventVerdict(dir, dir) == Trigger
  {
    assert !AllSlashes(dir);
  }

  /** As written, the handler never returns for output directory "/a" and event path "//x". */
  lemma SpinExample()
    ensures EventVerdict("/a", "//x") == Spin
  {
    assert HeadLength("//x") == 2;
    assert Split("//x").0 == "//";
    assert HeadLength("//") == 2;
    assert Split("//").0 == "//";
  }
}
