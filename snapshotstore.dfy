/**
 * The output tree and the store decision of `WebGetter.grab`: a new snapshot is written
 * unless its hash equals that of the most recent one, the greatest file name in the
 * target's directory.
 */
module SnapshotStore {
  import opened LexOrder

  /** One target's directory: file name to content. */
  type Files = map<string, string>

  /** The output directory: directory name (`pathfromuri` of a target) to its files. */
  type Tree = map<string, Files>

  /** The filesystem under the output directory, as `listdir`, `open` and `makedirs` see it. */
  class Disk {
    var dirs: Tree

    constructor (initial: Tree)
      ensures dirs == initial
    {
      dirs := initial;
    }

    /** `os.makedirs(dir)`, which the source calls only for a directory that does not exist. */
    method MakeDirs(dir: string)
      requires dir !in dirs
      modifies this
      ensures dirs == old(dirs)[dir := map[]]
    {
      dirs := dirs[dir := map[]];
    }

    /** `open(dir/name, 'w').write(content)`: creates or overwrites the file. */
    method Write(dir: string, name: string, content: string)
      requires dir in dirs
      modifies this
      ensures dirs == old(dirs)[dir := old(dirs)[dir][name := content]]
    {
      dirs := dirs[dir := dirs[dir][name := content]];
    }
  }

  /** The decision `goahead`: an empty directory, or a hash unlike the most recent file's. */
  ghost function ShouldWrite(md5: string -> string, files: Files, flat: string): (w: bool)
    ensures w <==> forall m :: IsGreatest(m, files.Keys) ==> md5(files[m]) != md5(flat)
  {
    if files.Keys == {} then true
    else
      GreatestIsTheOne(files.Keys);
      md5(files[Greatest(files.Keys)]) != md5(flat)
  }

  /** A target's directory after considering the new snapshot `flat` under `name`. */
  ghost function Consider(md5: string -> string, files: Files, name: string, flat: string): (r: Files)
    ensures files.Keys == {} ==> r == map[name := flat]
    ensures files.Keys <= r.Keys <= files.Keys + {name}
    ensures forall f :: f in files && f != name ==> f in r && r[f] == files[f]
    ensures !(name in r && r[name] == flat) ==> r == files
  {
    if ShouldWrite(md5, files, flat) then files[name := flat] else files
  }

  /**
   * Storing a snapshot under a name that sorts after all existing ones, then considering
   * the same content again under any name, stores nothing the second time.
   */
  lemma StoredOnce(md5: string -> string, files: Files, n1: string, n2: string, flat: string)
    requires forall f :: f in files ==> LessEq(f, n1)
    ensures Consider(md5, Consider(md5, files, n1, flat), n2, flat) == Consider(md5, files, n1, flat)
  {
    var once := Consider(md5, files, n1, flat);
    if ShouldWrite(md5, files, flat) {
      assert once.Keys == files.Keys + {n1};
      GreatestOfInsert(files.Keys, n1);
      assert !ShouldWrite(md5, once, flat);
    } else {
      assert !ShouldWrite(md5, once, flat);
    }
  }

  predicate IsDigit(c: char) {
    '0' <= c <= '9'
  }

  function Digit(d: nat): (c: char)
    requires d < 10
    ensures IsDigit(c) && c as int - '0' as int == d
  {
    ('0' as int + d) as char
  }

  /** `int(s)` for a string of decimal digits; the empty string reads as 0. */
  function DecValue(s: string): nat
    requires forall i :: 0 <= i < |s| ==> IsDigit(s[i])
    decreases |s|
  {
    if s == [] then 0
    else
      assert IsDigit(s[|s| - 1]);
      10 * DecValue(s[..|s| - 1]) + (s[|s| - 1] as int - '0' as int)
  }

  /** `str(n)` for a natural number: its decimal numeral, with no leading zero. */
  function Decimal(n: nat): (r: string)
    ensures |r| > 0
    ensures forall i :: 0 <= i < |r| ==> IsDigit(r[i])
    ensures r[0] == '0' ==> n == 0
    ensures DecValue(r) == n
    decreases n
  {
    if n < 10 then [Digit(n)]
    else
      var r := Decimal(n / 10) + [Digit(n % 10)];
      assert r[..|r| - 1] == Decimal(n / 10);
      r
  }

  /** Every numeral without a leading zero is the one `str` gives for its value. */
  lemma {:induction false} DecimalOfValue(s: string)
    requires |s| > 0 && (forall i :: 0 <= i < |s| ==> IsDigit(s[i])) && (s[0] == '0' ==> |s| == 1)
    ensures Decimal(DecValue(s)) == s
    decreases |s|
  {
    if |s| > 1 {
      var init := s[..|s| - 1];
      DecimalOfValue(init);
      assert init[0] == s[0] && Decimal(0) == "0";
      assert s == init + [s[|s| - 1]];
    }
  }

  /** `str(time.time()).split('.')[0] + '.html'`, for the whole seconds of the clock. */
  function SnapshotName(seconds: nat): (r: string)
    ensures |r| > 5 && r[|r| - 5..] == ".html"
    ensures forall i :: 0 <= i < |r| - 5 ==> IsDigit(r[i])
    ensures DecValue(r[..|r| - 5]) == seconds
  {
    var r := Decimal(seconds) + ".html";
    assert r[..|r| - 5] == Decimal(seconds);
    r
  }

  /** Among numbers of the same width, the decimal strings sort as the numbers do. */
  lemma {:induction false} DecimalOrder(a: nat, b: nat)
    requires a < b && |Decimal(a)| == |Decimal(b)|
    ensures Less(Decimal(a), Decimal(b))
    decreases b
  {
    if a < 10 {
      assert Decimal(a)[0] < Decimal(b)[0];
    } else if a / 10 < b / 10 {
      DecimalOrder(a / 10, b / 10);
      AppendKeepsLess(Decimal(a / 10), Decimal(b / 10), [Digit(a % 10)], [Digit(b % 10)]);
    } else {
      assert Less([Digit(a % 10)], [Digit(b % 10)]);
      PrefixKeepsLess(Decimal(a / 10), [Digit(a % 10)], [Digit(b % 10)]);
    }
  }

  /**
   * While the clock keeps the same number of digits, a later snapshot's name sorts last:
   * the greatest name in a directory is the most recent capture.
   */
  lemma LaterNameSortsLast(t1: nat, t2: nat)
    requires t1 <= t2 && |Decimal(t1)| == |Decimal(t2)|
    ensures LessEq(SnapshotName(t1), SnapshotName(t2))
  {
    if t1 < t2 {
      DecimalOrder(t1, t2);
      AppendKeepsLess(Decimal(t1), Decimal(t2), ".html", ".html");
    }
  }

  /**
   * A directory whose files were all captured no later than `t1`, with as many digits:
   * considering the same content at `t1` and again at `t2` stores it at most once.
   */
  lemma RerunStoresNothing(md5: string -> string, files: Files, t1: nat, t2: nat, flat: string)
    requires forall f :: f in files ==>
               exists t: nat :: f == SnapshotName(t) && t <= t1 && |Decimal(t)| == |Decimal(t1)|
    ensures var once := Consider(md5, files, SnapshotName(t1), flat);
      Consider(md5, once, SnapshotName(t2), flat) == once
  {
    forall f | f in files
      ensures LessEq(f, SnapshotName(t1))
    {
      var t: nat :| f == SnapshotName(t) && t <= t1 && |Decimal(t)| == |Decimal(t1)|;
      LaterNameSortsLast(t, t1);
    }
    StoredOnce(md5, files, SnapshotName(t1), SnapshotName(t2), flat);
  }
}
