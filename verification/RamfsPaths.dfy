/** How paths compose: a name in a directory is found by the directory's path, a slash and the
    name. */
module RamfsPaths {
  import opened Bytes
  import opened RamfsSpec
  import opened RamfsLaws

  predicate NoSlash(name: string) {
    forall i :: 0 <= i < |name| ==> name[i] != '/'
  }

  lemma SplitAtSlash(p: string, name: string)
    requires NoSlash(name)
    ensures LastSlash(p + "/" + name) == |p| && BaseName(p + "/" + name) == name
    ensures DirPart(p + "/" + name) == if |p| < 256 then p else p[..255]
  {
    hide LastSlash, Components;
    var s := p + "/" + name;
    LastSlashAfter(p, name);
    assert s[|p| + 1..] == name && s[..|p|] == p;
    if |p| >= 256 { assert s[..255] == p[..255]; }
  }

  lemma LastSlashAfter(p: string, name: string)
    requires NoSlash(name)
    ensures LastSlash(p + "/" + name) == |p|
  {
    hide LastSlash;
    var s := p + "/" + name;
    assert s[..|p|] == p && s[|p|] == '/' && s[|p| + 1..] == name;
    LastSlashIs(s, |p|);
  }

  lemma LastSlashIs(s: string, k: nat)
    requires k < |s| && s[k] == '/' && NoSlash(s[k + 1..])
    ensures LastSlash(s) == k
  {
    hide LastSlash;
    forall i | k < i < |s| ensures s[i] != '/' { assert s[i] == s[k + 1..][i - k - 1]; }
  }

  lemma {:induction false} SegLenIs(p: string, n: nat)
    requires n <= |p| && NoSlash(p[..n]) && (n < |p| ==> p[n] == '/')
    ensures SegLen(p) == n
  {
    hide SegLen;
    forall i | 0 <= i < n ensures p[i] != '/' { assert p[i] == p[..n][i]; }
  }

  lemma ComponentsOfName(name: string)
    requires name != "" && NoSlash(name)
    ensures Components(name) == [name]
  {
    assert name[..|name|] == name;
    SegLenIs(name, |name|);
    assert name[|name|..] == "";
    assert Components("") == [];
  }

  lemma {:induction false} ComponentsConcat(a: string, b: string)
    ensures Components(a + "/" + b) == Components(a) + Components(b)
    decreases |a|
  {
    hide SegLen;
    var s := a + "/" + b;
    if a == "" {
      assert s[1..] == b;
    } else if a[0] == '/' {
      assert s[1..] == a[1..] + "/" + b;
      ComponentsConcat(a[1..], b);
    } else {
      var n := SegLen(a);
      ComponentsConcat(a[n..], b);
      FirstComponent(a);
      FirstComponent(s);
      assert s[..n] == a[..n] && s[n..] == a[n..] + "/" + b;
      SegLenIs(s, n);
    }
  }

  lemma FirstComponent(p: string)
    requires p != "" && p[0] != '/'
    ensures 0 < SegLen(p) <= |p| && Components(p) == [p[..SegLen(p)]] + Components(p[SegLen(p)..])
  {
  }

  lemma {:induction false} WalkConcat(nodes: map<nat, Node>, dir: nat, a: seq<string>, b: seq<string>)
    ensures Walk(nodes, dir, a + b) ==
      if Walk(nodes, dir, a).None? then None else Walk(nodes, Walk(nodes, dir, a).value, b)
    decreases |a|
  {
    if a == [] {
      assert a + b == b;
    } else {
      assert (a + b)[1..] == a[1..] + b;
      var c := Child(nodes, dir, a[0]);
      if c.Some? && !nodes[c.value].File? { WalkConcat(nodes, c.value, a[1..], b); }
    }
  }

  lemma WalkOne(nodes: map<nat, Node>, dir: nat, name: string)
    ensures var c := Child(nodes, dir, name);
      Walk(nodes, dir, [name]) == if c.None? || nodes[c.value].File? then None else c
  {
    var c := Child(nodes, dir, name);
    if c.Some? && !nodes[c.value].File? { assert Walk(nodes, c.value, [name][1..]) == c; }
  }

  /** A directory's path, without a slash at its end, walks to what it looks up. */
  lemma WalkIsLookup(fs: Fs, p: string)
    requires Inv(fs) && |p| < 256 && (p == "" || p[|p| - 1] != '/')
    ensures var d := Lookup(fs.nodes, p);
      && (d.Some? ==> d.value in fs.nodes)
      && Walk(fs.nodes, ROOT, Components(p)) == if d.Some? && fs.nodes[d.value].Dir? then d else None
  {
    hide Inv, Walk, Child, LastSlash, Lookup, Components;
    InvFacts(fs);
    LookupBound(fs, p);
    if p == "" {
      RootWalk(fs.nodes);
      RootLookup(fs.nodes);
    } else {
      var k := LastSlash(p);
      if k < 0 {
        WalkFlat(fs.nodes, p);
      } else {
        WalkSplit(fs.nodes, p[..k], p[k + 1..]);
        assert p == p[..k] + "/" + p[k + 1..];
      }
    }
  }

  lemma WalkFlat(nodes: map<nat, Node>, name: string)
    requires name != "" && NoSlash(name)
    ensures var c := Lookup(nodes, name);
      Walk(nodes, ROOT, Components(name)) == if c.None? || nodes[c.value].File? then None else c
  {
    hide Walk, Child, Components, LastSlash;
    assert LastSlash(name) < 0 && name[0..] == name && name[0] != '/';
    assert DirPart(name) == "" && BaseName(name) == name;
    ComponentsOfName(name);
    RootWalk(nodes);
    WalkOne(nodes, ROOT, name);
  }

  lemma WalkSplit(nodes: map<nat, Node>, q: string, name: string)
    requires name != "" && NoSlash(name) && |q| < 256
    ensures var c := Lookup(nodes, q + "/" + name);
      Walk(nodes, ROOT, Components(q + "/" + name)) == if c.None? || nodes[c.value].File? then None else c
  {
    hide Walk, Child, LastSlash, Components;
    SplitAtSlash(q, name);
    ComponentsOfName(name);
    ComponentsConcat(q, name);
    WalkConcat(nodes, ROOT, Components(q), [name]);
    var dir := Walk(nodes, ROOT, Components(q));
    if dir.Some? { WalkOne(nodes, dir.value, name); }
    assert |q + "/" + name| >= 2;
  }

  lemma RootLookup(nodes: map<nat, Node>)
    ensures Lookup(nodes, "") == Some(ROOT)
  {
  }

  lemma RootWalk(nodes: map<nat, Node>)
    ensures Walk(nodes, ROOT, Components("")) == Some(ROOT)
  {
  }

  /** A slash and a name after a directory's path is that name in that directory; after anything
      else it names nothing. */
  lemma LookupComposes(fs: Fs, p: string, name: string)
    requires Inv(fs) && |p| < 256 && (p == "" || p[|p| - 1] != '/')
    requires name != "" && NoSlash(name)
    ensures var d, n := Lookup(fs.nodes, p), Lookup(fs.nodes, p + "/" + name);
      && (d.Some? ==> d.value in fs.nodes)
      && n == if d.Some? && fs.nodes[d.value].Dir? then Child(fs.nodes, d.value, name) else None
  {
    hide Inv, Walk, Child, LastSlash, Components;
    WalkIsLookup(fs, p);
    SplitAtSlash(p, name);
    assert |p + "/" + name| >= 2;
  }

  /** What the child of a directory is. */
  lemma ChildByName(fs: Fs, dir: nat, name: string)
    requires Inv(fs)
    ensures var c := Child(fs.nodes, dir, name);
      && (c.Some? ==> c.value in fs.nodes && c.value != ROOT
                      && fs.nodes[c.value].parent == dir && fs.nodes[c.value].name == name)
      && (c.None? ==> forall n :: n in fs.nodes && n != ROOT ==> fs.nodes[n].parent != dir || fs.nodes[n].name != name)
  {
    hide Inv;
    if Child(fs.nodes, dir, name).None? {
      forall n | n in fs.nodes && n != ROOT ensures fs.nodes[n].parent != dir || fs.nodes[n].name != name {
        assert !IsChild(fs.nodes, dir, name, n);
      }
    }
  }

  /** A directory prefix of 256 characters or more is cut to 255: the path names whatever the cut
      path names. */
  lemma LongPrefixIsCut(fs: Fs, p: string, name: string)
    requires Inv(fs) && |p| >= 256 && name != "" && NoSlash(name)
    ensures Lookup(fs.nodes, p + "/" + name) == Lookup(fs.nodes, p[..255] + "/" + name)
  {
    hide Inv, Walk, Child, LastSlash, Components;
    SplitAtSlash(p, name);
    SplitAtSlash(p[..255], name);
    assert |p + "/" + name| >= 2 && |p[..255] + "/" + name| >= 2;
  }
}
