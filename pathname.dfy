/** `WebGetter.pathfromuri`: the directory name a target's snapshots go in. */
module PathName {
  import opened Env

  /** `re.sub(c, d, s)` for a one-character pattern with no special meaning. */
  function Replace(s: string, c: char, d: char): (r: string)
    ensures |r| == |s|
    ensures forall i :: 0 <= i < |s| ==> r[i] == (if s[i] == c then d else s[i])
    ensures c != d ==> c !in r
  {
    if s == [] then [] else [if s[0] == c then d else s[0]] + Replace(s[1..], c, d)
  }

  /**
   * The netloc, then the path with every '/' turned into '_' (when there is a path), then
   * '+' and the query with every '&' turned into '-' (when there is a query).
   */
  function PathFromUri(u: UrlParts): (r: string)
    ensures |r| == |u.netloc| + |u.path| + (if u.query != "" then |u.query| + 1 else 0)
    ensures r[..|u.netloc|] == u.netloc
    ensures r[|u.netloc|..|u.netloc| + |u.path|] == Replace(u.path, '/', '_')
    ensures '/' !in r[|u.netloc|..|u.netloc| + |u.path|]
    ensures u.query != "" ==>
              r[|u.netloc| + |u.path|] == '+'
              && r[|u.netloc| + |u.path| + 1..] == Replace(u.query, '&', '-')
              && '&' !in r[|u.netloc| + |u.path| + 1..]
  {
    var base := u.netloc;
    var base := if u.path != "" then base + Replace(u.path, '/', '_') else base;
    if u.query != "" then base + "+" + Replace(u.query, '&', '-') else base
  }

  /**
   * Two different targets can share a directory: a '/' and an '_' in the path, or an '&'
   * and a '-' in the query, give the same name.
   */
  lemma Collisions()
    ensures PathFromUri(UrlParts("http", "a.org", "/x/y", "")) == PathFromUri(UrlParts("http", "a.org", "/x_y", ""))
    ensures PathFromUri(UrlParts("http", "a.org", "", "p=1&q=2")) == PathFromUri(UrlParts("http", "a.org", "", "p=1-q=2"))
  {
    assert Replace("/x/y", '/', '_') == "_x_y" == Replace("/x_y", '/', '_');
    assert Replace("p=1&q=2", '&', '-') == "p=1-q=2" == Replace("p=1-q=2", '&', '-');
  }
}
