/** `addDevice(tree, deviceName)`: registers `plugin/device` in the path tree,
    marking the plugin node and the device node with their element kinds.
    Its accept/reject behaviour is the one pinned down by
    tests/cplusplus/Routing/AddDevice.cpp. */
module AddDevice {
  import opened Wrappers
  import opened RoutingExceptions
  import opened PathTree

  /** A missing leading separator is forgiven: the name is read as if it had
      one. */
  function WithoutLeadingSeparator(deviceName: string): string
  {
    if deviceName != "" && deviceName[0] == PathSeparatorCharacter then deviceName[1..] else deviceName
  }

  /** Node `n` sits two levels below the root: its parent is a child of the
      root. */
  predicate AtDeviceDepth(ns: seq<PathNode>, n: nat)
    requires n < |ns|
  {
    var p := ns[n].parent;
    && p.Some?
    && p.value != RootIndex
    && p.value < |ns|
    && ns[p.value].parent == Some(RootIndex)
  }

  /** The arena after `addDevice(tree, deviceName)` and the device node or the
      error raised. */
  function AddDeviceResult(ns: seq<PathNode>, deviceName: string): (r: (seq<PathNode>, Result<nat, RoutingError>))
    requires WellFormed(ns)
    ensures WellFormed(r.0) && Extends(ns, r.0)
    ensures r.1.Ok? ==> r.1.value < |r.0|
  {
    var rest := WithoutLeadingSeparator(deviceName);
    var sep := IndexOfSeparator(rest);
    if sep.None? || sep.value == |rest| - 1 then (ns, Err(InvalidDeviceName(deviceName)))
    else
      var res := Resolve(ns, PathSeparator + rest);
      if res.1.Err? then res
      else if !AtDeviceDepth(res.0, res.1.value) then (res.0, Err(InvalidDeviceName(deviceName)))
      else
        var dev := res.1.value;
        var plugin := res.0[dev].parent.value;
        var marked := WithElement(res.0, plugin, PluginElement);
        var r := WithElement(marked, dev, DeviceElement);
        ExtendsTransitive(ns, res.0, marked);
        ExtendsTransitive(ns, marked, r);
        (r, Ok(dev))
  }

  /** Two levels below the root is the same as a path of two components. */
  lemma AtDeviceDepthIff(ns: seq<PathNode>, n: nat)
    requires WellFormed(ns) && n < |ns|
    ensures AtDeviceDepth(ns, n) <==> |PathOf(ns, n)| == 2
  {
    if n != RootIndex {
      assert ParentLink(ns, n);
      var p := ns[n].parent.value;
      assert |PathOf(ns, n)| == |PathOf(ns, p)| + 1;
      if p != RootIndex {
        assert ParentLink(ns, p);
        var q := ns[p].parent.value;
        assert |PathOf(ns, p)| == |PathOf(ns, q)| + 1;
        if q != RootIndex {
          assert ParentLink(ns, q);
        }
      }
    }
  }

  method AddDevice(tree: PathTree, deviceName: string) returns (r: Result<nat, RoutingError>)
    requires tree.Valid()
    modifies tree
    ensures tree.Valid()
    ensures (tree.nodes, r) == AddDeviceResult(old(tree.nodes), deviceName)
  {
    var rest := WithoutLeadingSeparator(deviceName);
    var sep := IndexOfSeparator(rest);
    if sep.None? || sep.value == |rest| - 1 {
      return Err(InvalidDeviceName(deviceName));
    }
    r := tree.GetNodeByPath(PathSeparator + rest);
    if r.Err? {
      return;
    }
    var dev := r.value;
    var parent := tree.nodes[dev].parent;
    if parent.None? || parent.value == RootIndex || tree.nodes[parent.value].parent != Some(RootIndex) {
      return Err(InvalidDeviceName(deviceName));
    }
    tree.SetElement(parent.value, PluginElement);
    tree.SetElement(dev, DeviceElement);
  }

  /** On success the result is a Device node whose parent is a Plugin node
      directly under the root; the device's path is the two components of
      the name. */
  lemma AddDeviceMakesPluginAndDevice(ns: seq<PathNode>, deviceName: string)
    requires WellFormed(ns)
    requires AddDeviceResult(ns, deviceName).1.Ok?
    ensures var (ns', r) := AddDeviceResult(ns, deviceName);
      var rest := WithoutLeadingSeparator(deviceName);
      && |PathSeparator + rest| >= 2
      && ns'[r.value].kind == DeviceElement
      && ns'[r.value].parent.Some?
      && ns'[r.value].parent.value < |ns'|
      && ns'[ns'[r.value].parent.value].kind == PluginElement
      && ns'[ns'[r.value].parent.value].parent == Some(RootIndex)
      && PathOf(ns', r.value) == Components(PathSeparator + rest)
      && |Components(PathSeparator + rest)| == 2
  {
    var rest := WithoutLeadingSeparator(deviceName);
    var path := PathSeparator + rest;
    var res := Resolve(ns, path);
    var (ns', r) := AddDeviceResult(ns, deviceName);
    ResolveReachesComponents(ns, path);
    AtDeviceDepthIff(res.0, res.1.value);
    PathOfExtends(res.0, ns', r.value);
  }

  /** The device node is what `getNodeByPath` of the same (slashed) name
      returns afterwards, and the root is what `getNodeByPath("/")`
      returns. */
  lemma AddDeviceThenGetNodeByPath(ns: seq<PathNode>, deviceName: string)
    requires WellFormed(ns)
    requires AddDeviceResult(ns, deviceName).1.Ok?
    ensures var (ns', r) := AddDeviceResult(ns, deviceName);
      && Resolve(ns', PathSeparator + WithoutLeadingSeparator(deviceName)) == (ns', r)
      && Resolve(ns', PathSeparator) == (ns', Ok(RootIndex))
  {
    var path := PathSeparator + WithoutLeadingSeparator(deviceName);
    var res := Resolve(ns, path);
    ResolveStable(ns, path, AddDeviceResult(ns, deviceName).0);
  }

  /** A name without its leading separator is treated as if it had one: the
      same tree and the same node, and only the text of an
      InvalidDeviceName error differs (it quotes the name as given). */
  lemma AddDeviceForgivesMissingLeadingSeparator(ns: seq<PathNode>, name: string)
    requires WellFormed(ns)
    requires name == "" || name[0] != PathSeparatorCharacter
    ensures var a := AddDeviceResult(ns, name);
      var b := AddDeviceResult(ns, PathSeparator + name);
      && a.0 == b.0
      && (a.1 == b.1 || (a.1 == Err(InvalidDeviceName(name)) && b.1 == Err(InvalidDeviceName(PathSeparator + name))))
  {
    assert WithoutLeadingSeparator(PathSeparator + name) == name;
  }

  /** The root and single-level names are rejected with InvalidDeviceName
      and leave the tree unchanged: `p`, `/p`, `p/` and `/p/` for any `p`
      without a separator, which includes `""`, `"/"` and `"//"`. */
  lemma AddDeviceRejectsSingleLevel(ns: seq<PathNode>, p: string)
    requires WellFormed(ns) && NoSeparator(p)
    ensures AddDeviceResult(ns, p) == (ns, Err(InvalidDeviceName(p)))
    ensures AddDeviceResult(ns, PathSeparator + p) == (ns, Err(InvalidDeviceName(PathSeparator + p)))
    ensures AddDeviceResult(ns, p + PathSeparator) == (ns, Err(InvalidDeviceName(p + PathSeparator)))
    ensures AddDeviceResult(ns, PathSeparator + p + PathSeparator) ==
      (ns, Err(InvalidDeviceName(PathSeparator + p + PathSeparator)))
  {
    SeparatorAfter(p, "");
    assert p + PathSeparator + "" == p + PathSeparator;
    assert WithoutLeadingSeparator(PathSeparator + p) == p;
    assert WithoutLeadingSeparator(PathSeparator + p + PathSeparator) == p + PathSeparator;
    if p != "" {
      assert WithoutLeadingSeparator(p) == p;
      assert WithoutLeadingSeparator(p + PathSeparator) == p + PathSeparator;
    } else {
      assert WithoutLeadingSeparator(p + PathSeparator) == "";
    }
  }

  /** A name whose device level is empty (`p//` or `/p//`) gets as far as
      resolving the path and is rejected with EmptyPathComponent there. */
  lemma AddDeviceRejectsEmptySecondLevel(ns: seq<PathNode>, p: string)
    requires WellFormed(ns) && p != "" && NoSeparator(p)
    ensures AddDeviceResult(ns, p + "//").1 == Err(EmptyPathComponent(PathSeparator + p + "//"))
    ensures AddDeviceResult(ns, PathSeparator + p + "//").1 == Err(EmptyPathComponent(PathSeparator + p + "//"))
  {
    var rest := p + "//";
    assert WithoutLeadingSeparator(p + "//") == rest;
    assert WithoutLeadingSeparator(PathSeparator + p + "//") == rest;
    SeparatorAfter(p, "/");
    assert p + PathSeparator + "/" == rest;
    assert PathSeparator + rest == PathSeparator + p + "//";
    ResolveEmptySecondLevel(ns, p);
  }

  lemma ResolveEmptySecondLevel(ns: seq<PathNode>, p: string)
    requires WellFormed(ns) && p != "" && NoSeparator(p)
    ensures Resolve(ns, PathSeparator + p + "//").1 == Err(EmptyPathComponent(PathSeparator + p + "//"))
  {
    var path := PathSeparator + p + "//";
    var t := p + PathSeparator + "";
    assert TrimmedRange(path) == t;
    SeparatorAfter(p, "");
    assert t[..|p|] == p;
    assert t[|p| + 1..] == "";
    assert Split("") == [""];
    assert Split(t) == [p, ""];
    assert FirstEmpty(Components(path)) == 1;
  }

  /** `"///"` is long enough to name a plugin level and is rejected with
      EmptyPathComponent, without touching the tree. */
  lemma AddDeviceRejectsTripleSeparator(ns: seq<PathNode>)
    requires WellFormed(ns)
    ensures AddDeviceResult(ns, "///") == (ns, Err(EmptyPathComponent("///")))
  {
    var rest := "//";
    assert WithoutLeadingSeparator("///") == rest == "" + PathSeparator + "/";
    SeparatorAfter("", "/");
    assert IndexOfSeparator(rest) == Some(0);
    assert PathSeparator + rest == "///";
    var t := "/";
    assert TrimmedRange("///") == t == "" + PathSeparator + "";
    SeparatorAfter("", "");
    assert t[..0] == "" && t[1..] == "";
    assert Split("") == [""];
    assert Split(t) == ["", ""];
    assert FirstEmpty(Components("///")) == 0;
    assert Resolve(ns, "///") == (ns, Err(EmptyPathComponent("///")));
  }

  /** On a tree holding only its root, `/plugin/device` creates exactly a
      Plugin node under the root and a childless Device node under it, and
      returns the device. */
  lemma AddDeviceOnFreshTree(plugin: string, device: string)
    requires plugin != "" && NoSeparator(plugin)
    requires device != "" && NoSeparator(device)
    ensures AddDeviceResult(FreshTree(), PathSeparator + plugin + PathSeparator + device) ==
      ([PathNode("", NullElement, None, map[plugin := 1]),
        PathNode(plugin, PluginElement, Some(RootIndex), map[device := 2]),
        PathNode(device, DeviceElement, Some(1), map[])],
       Ok(2))
  {
    var name := PathSeparator + plugin + PathSeparator + device;
    var rest := plugin + PathSeparator + device;
    assert WithoutLeadingSeparator(name) == rest;
    SeparatorAfter(plugin, device);
    assert IndexOfSeparator(rest) == Some(|plugin|) && |plugin| != |rest| - 1;
    assert PathSeparator + rest == name;
    var w := ResolveOnFreshTree(plugin, device);
    assert Resolve(FreshTree(), PathSeparator + rest) == (w, Ok(2));
    assert AtDeviceDepth(w, 2);
    var marked := WithElement(w, 1, PluginElement);
    assert marked == w[1 := w[1].(kind := PluginElement)];
    var r := WithElement(marked, 2, DeviceElement);
    assert r == marked[2 := marked[2].(kind := DeviceElement)];
    assert AddDeviceResult(FreshTree(), name) == (r, Ok(2));
    var expected := [PathNode("", NullElement, None, map[plugin := 1]),
                     PathNode(plugin, PluginElement, Some(RootIndex), map[device := 2]),
                     PathNode(device, DeviceElement, Some(1), map[])];
    assert r[0] == expected[0] && r[1] == expected[1] && r[2] == expected[2];
    assert r == expected;
  }

  /** The arena `getNodeByPath("/plugin/device")` leaves behind on a fresh
      tree, before any element kinds are set. */
  lemma ResolveOnFreshTree(plugin: string, device: string) returns (w: seq<PathNode>)
    requires plugin != "" && NoSeparator(plugin)
    requires device != "" && NoSeparator(device)
    ensures w == [PathNode("", NullElement, None, map[plugin := 1]),
                  PathNode(plugin, NullElement, Some(RootIndex), map[device := 2]),
                  PathNode(device, NullElement, Some(1), map[])]
    ensures Resolve(FreshTree(), PathSeparator + plugin + PathSeparator + device) == (w, Ok(2))
  {
    var rest := plugin + PathSeparator + device;
    var path := PathSeparator + rest;
    assert path == PathSeparator + plugin + PathSeparator + device;
    assert TrimmedRange(path) == rest;
    assert Join([plugin, device]) == rest;
    SplitJoin([plugin, device]);
    var comps := [plugin, device];
    assert Components(path) == comps;
    assert FirstEmpty(comps) == 2;
    assert comps[..2] == comps;
    assert comps[..1] == [plugin];
    assert [plugin][..0] == [];
    var f := FreshTree();
    assert f == [PathNode("", NullElement, None, map[])];
    var w1 := GetOrCreateChild(f, RootIndex, plugin);
    assert Walk(f, RootIndex, [plugin]) == w1;
    assert plugin !in f[RootIndex].children;
    var root1 := f[RootIndex].(children := f[RootIndex].children[plugin := 1]);
    assert root1 == PathNode("", NullElement, None, map[plugin := 1]);
    assert w1 == (f[RootIndex := root1] + [PathNode(plugin, NullElement, Some(RootIndex), map[])], 1);
    var w2 := GetOrCreateChild(w1.0, 1, device);
    assert Walk(f, RootIndex, comps) == w2;
    assert device !in w1.0[1].children;
    w := w2.0;
  }
}
