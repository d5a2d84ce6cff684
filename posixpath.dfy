/** The part of POSIX `os.path.split` the event handler uses. */
module PosixPath {

  predicate AllSlashes(s: string) {
    forall i :: 0 <= i < |s| ==> s[i] == '/'
  }

  /** `p.rfind('/') + 1`: the length of p up to and including its last '/', 0 if none. */
  function HeadLength(p: string): (i: nat)
    ensures i <= |p|
    ensures i > 0 ==> p[i - 1] == '/'
    ensures forall k :: i <= k < |p| ==> p[k] != '/'
  {
    if p == [] then 0
    else if p[|p| - 1] == '/' then |p|
    else HeadLength(p[..|p| - 1])
  }

  /** `s.rstrip('/')` */
  function RStripSlashes(s: string): (r: string)
    ensures |r| <= |s| && r == s[..|r|]
    ensures AllSlashes(s[|r|..])
    ensures r == [] || r[|r| - 1] != '/'
  {
    if s == [] || s[|s| - 1] != '/' then s else RStripSlashes(s[..|s| - 1])
  }

  /**
   * `posixpath.split(p)`: the head is p up to its last '/', with trailing slashes
   * stripped unless the head is all slashes; the tail is what follows the last '/'.
   */
  function Split(p: string): (r: (string, string))
    ensures r.1 == p[HeadLength(p)..] && '/' !in r.1
    ensures |r.0| <= |p| && r.0 == p[..|r.0|]
    ensures AllSlashes(p) ==> r.0 == p
    ensures !AllSlashes(p) ==> |r.0| < |p|
    ensures r.0 != [] && !AllSlashes(r.0) ==> |r.0| < |p| && p[|r.0|] == '/'
    ensures |r.0| <= HeadLength(p) && AllSlashes(p[|r.0|..HeadLength(p)])
    ensures AllSlashes(p[..HeadLength(p)]) ==> |r.0| == HeadLength(p)
    ensures !AllSlashes(p[..HeadLength(p)]) ==> r.0 != [] && r.0[|r.0| - 1] != '/'
  {
    var i := HeadLength(p);
    var head := p[..i];
    assert AllSlashes(p) ==> i == |p|;
    (if head != [] && !AllSlashes(head) then RStripSlashes(head) else head, p[i..])
  }
}
