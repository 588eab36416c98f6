/** kernel/src/fs/path.c: cutting a path into components. A C string is the sequence of its characters;
    reading at its length finds the terminator. */
module Paths {
  const VFS_MAX_COMPONENT_LEN: nat := 64

  /** The reference reading of a path: its maximal runs of characters other than '/', in order. */
  function Split(s: string): seq<string>
    decreases |s|
  {
    if s == "" then [] else if s[0] == '/' then Split(s[1..]) else [s[..Run(s)]] + Split(s[Run(s)..])
  }

  /** The length of the run that starts the string. */
  function Run(s: string): (n: nat)
    ensures n <= |s| && (forall i :: 0 <= i < n ==> s[i] != '/') && (n < |s| ==> s[n] == '/')
    ensures s != "" && s[0] != '/' ==> n > 0
  {
    if s == "" || s[0] == '/' then 0 else 1 + Run(s[1..])
  }

  lemma RunIs(s: string, n: nat)
    requires n <= |s| && (forall i :: 0 <= i < n ==> s[i] != '/') && (n < |s| ==> s[n] == '/')
    ensures Run(s) == n
  {
  }

  predicate IsComponent(c: string) {
    c != "" && forall i :: 0 <= i < |c| ==> c[i] != '/'
  }

  lemma {:induction false} SplitComponents(s: string)
    ensures forall c :: c in Split(s) ==> IsComponent(c)
    decreases |s|
  {
    if s == "" {
    } else if s[0] == '/' {
      SplitComponents(s[1..]);
    } else {
      SplitComponents(s[Run(s)..]);
    }
  }

  /** A slash separates: what comes before it and what comes after it split on their own. Leading,
      trailing and repeated slashes therefore never matter. */
  lemma {:induction false} SplitAtSlash(a: string, b: string)
    ensures Split(a + "/" + b) == Split(a) + Split(b)
    decreases |a|
  {
    var s := a + "/" + b;
    if a == "" {
      assert s[1..] == b;
    } else if a[0] == '/' {
      assert s[1..] == a[1..] + "/" + b;
      SplitAtSlash(a[1..], b);
    } else {
      var n := Run(a);
      RunIs(s, n);
      assert s[..n] == a[..n] && s[n..] == a[n..] + "/" + b;
      SplitAtSlash(a[n..], b);
      assert Split(a) == [a[..n]] + Split(a[n..]);
    }
  }

  lemma SplitOne(c: string)
    requires IsComponent(c)
    ensures Split(c) == [c]
  {
    RunIs(c, |c|);
    assert c[..|c|] == c && c[|c|..] == "";
  }

  /** Any one slash may be doubled, anywhere, and slashes may be added at both ends. */
  lemma ExtraSlashes(a: string, b: string)
    ensures Split(a + "//" + b) == Split(a + "/" + b)
    ensures Split("/" + a) == Split(a) == Split(a + "/")
  {
    SplitAtSlash(a, b);
    SplitAtSlash(a, "/" + b);
    assert a + "/" + ("/" + b) == a + "//" + b;
    SplitAtSlash("", b);
    assert "" + "/" + b == "/" + b;
    SplitAtSlash("", a);
    assert "" + "/" + a == "/" + a;
    SplitAtSlash(a, "");
    assert a + "/" + "" == a + "/";
  }

  function Join(components: seq<string>): string {
    if components == [] then "" else "/" + components[0] + Join(components[1..])
  }

  /** Splitting inverts joining. */
  lemma {:induction false} SplitJoin(components: seq<string>)
    requires forall c :: c in components ==> IsComponent(c)
    ensures Split(Join(components)) == components
  {
    if components != [] {
      var c, rest := components[0], components[1..];
      assert Join(components) == "" + "/" + (c + Join(rest));
      SplitAtSlash("", c + Join(rest));
      SplitJoin(rest);
      if rest == [] {
        assert c + Join(rest) == c;
        SplitOne(c);
      } else {
        var tail := rest[0] + Join(rest[1..]);
        assert Join(rest) == "" + "/" + tail;
        assert c + Join(rest) == c + "/" + tail;
        SplitAtSlash(c, tail);
        SplitAtSlash("", tail);
        SplitOne(c);
      }
    }
  }

  datatype Step = End | TooLong | Component(name: string, next: nat)

  lemma SkipSlashes(s: string, p: nat, q: nat)
    requires p <= q <= |s| && forall i :: p <= i < q ==> s[i] == '/'
    ensures Split(s[p..]) == Split(s[q..])
    decreases q - p
  {
    if p < q {
      SkipSlashes(s, p + 1, q);
      assert s[p..][1..] == s[p + 1..];
    }
  }

  /** A run of other characters is at least the start of the first component; up to a slash it is all of it. */
  lemma SplitRun(s: string, start: nat, p: nat)
    requires start < p <= |s| && forall i :: start <= i < p ==> s[i] != '/'
    ensures Split(s[start..]) != [] && |Split(s[start..])[0]| >= p - start
    ensures p == |s| || s[p] == '/' ==> Split(s[start..]) == [s[start..p]] + Split(s[p..])
  {
    var t := s[start..];
    assert Run(t) < |t| ==> t[Run(t)] == s[start + Run(t)];
    if p == |s| || s[p] == '/' {
      RunIs(t, p - start);
      assert t[p - start..] == s[p..] && t[..p - start] == s[start..p];
    }
  }

  /** `path_next_component` from the cursor `path`: 0, -1 or 1 with the component and the new cursor. */
  method NextComponent(s: string, path: nat) returns (r: Step)
    requires path <= |s|
    ensures r.End? <==> Split(s[path..]) == []
    ensures r.TooLong? <==> Split(s[path..]) != [] && |Split(s[path..])[0]| > VFS_MAX_COMPONENT_LEN - 1
    ensures r.Component? ==> path < r.next <= |s| && Split(s[path..]) == [r.name] + Split(s[r.next..])
  {
    hide Split;
    var p := path;
    while p < |s| && s[p] == '/'
      invariant path <= p <= |s| && forall i :: path <= i < p ==> s[i] == '/'
    {
      p := p + 1;
    }
    SkipSlashes(s, path, p);
    if p == |s| {
      NoComponent(s[p..]);
      return End;
    }
    ghost var start := p;
    var component := "";
    while p < |s| && s[p] != '/'
      invariant start <= p <= |s| && component == s[start..p] && |component| <= VFS_MAX_COMPONENT_LEN - 1
      invariant forall i :: start <= i < p ==> s[i] != '/'
    {
      if |component| >= VFS_MAX_COMPONENT_LEN - 1 {
        SplitRun(s, start, p + 1);
        return TooLong;
      }
      component := component + [s[p]];
      p := p + 1;
    }
    SplitRun(s, start, p);
    return Component(component, p);
  }

  lemma NoComponent(s: string)
    requires s == ""
    ensures Split(s) == []
  {
  }
}
