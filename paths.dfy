/**
 * Converting between file paths and Python module names, and splitting a
 * module name into the package to run it from and the module itself.
 */
module Paths {
  import opened PyStrings

  /** The `Package` named tuple: the directory to run from, and the module to run. */
  datatype Package = Package(packagePath: string, mainModule: string)

  /**
   * `path_to_module`: every ".py" is dropped, wherever it occurs, and then
   * every '/' becomes '.', so that a module name never holds '/'.
   */
  function PathToModule(path: string): (r: string)
    ensures '/' !in r
  {
    ReplaceCharGone(ReplaceAll(path, ".py", ""), '/', '.');
    ReplaceAll(ReplaceAll(path, ".py", ""), "/", ".")
  }

  /**
   * `module_to_path`: the module name with every '.' turned into '/', plus
   * ".py", so that the final ".py" is the only '.' of the path.
   */
  function ModuleToPath(moduleName: string): (r: string)
    ensures |r| >= 3 && r[|r| - 3..] == ".py"
    ensures '.' !in r[..|r| - 3]
  {
    var x := PathToModule(moduleName);
    ReplaceCharGone(x, '.', '/');
    assert (ReplaceAll(x, ".", "/") + ".py")[..|ReplaceAll(x, ".", "/")|] == ReplaceAll(x, ".", "/");
    ReplaceAll(x, ".", "/") + ".py"
  }

  /**
   * `generate_package`: the main module is the module name of the path, and
   * the package is run from its first dotted component, or from "." when the
   * name has no '.'; neither holds a '/'.
   */
  function GeneratePackage(path: string): (r: Package)
    ensures r.mainModule == PathToModule(path)
    ensures '.' !in PathToModule(path) ==> r.packagePath == "."
    ensures '.' in PathToModule(path) ==>
              var m := PathToModule(path);
              r.packagePath == m[..FirstIndex(m, '.')]
    ensures '/' !in r.packagePath && '/' !in r.mainModule
  {
    var name := PathToModule(path);
    var items := Split(name, '.');
    SplitMany(name, '.');
    assert '.' in name ==> items[0] == name[..FirstIndex(name, '.')] by {
      if '.' in name {
        SplitAtFirst(name, '.');
      }
    }
    var root := if |items| == 1 then "." else items[0];
    Package(root, name)
  }

  /** Replacing one character by a different one leaves none of the first behind. */
  lemma ReplaceCharGone(s: string, c: char, d: char)
    requires c != d
    ensures c !in ReplaceAll(s, [c], [d])
    ensures |ReplaceAll(s, [c], [d])| == |s|
  {
    ReplaceCharAt(s, c, d);
    var r := ReplaceAll(s, [c], [d]);
    forall i | 0 <= i < |r| ensures r[i] != c {
    }
  }

  /** Replacing `c` by `d` and then `d` by `c` restores a string that held no `d`. */
  lemma {:induction false} ReplaceCharBack(s: string, c: char, d: char)
    requires c != d && d !in s
    ensures ReplaceAll(ReplaceAll(s, [c], [d]), [d], [c]) == s
  {
    var t := ReplaceAll(s, [c], [d]);
    var u := ReplaceAll(t, [d], [c]);
    ReplaceCharAt(s, c, d);
    ReplaceCharAt(t, d, c);
    assert |u| == |s|;
    forall i | 0 <= i < |s| ensures u[i] == s[i] {
      assert s[i] != d;
    }
  }

  /**
   * A module name survives the trip to a file path and back:
   * `path_to_module(module_to_path(m)) == path_to_module(m)`.
   */
  lemma ModulePathRoundTrip(moduleName: string)
    ensures PathToModule(ModuleToPath(moduleName)) == PathToModule(moduleName)
  {
    var x := PathToModule(moduleName);
    var y := ReplaceAll(x, ".", "/");
    ReplaceCharGone(x, '.', '/');
    ReplaceSuffix(y, ".py", "");
    assert y + "" == y;
    ReplaceCharBack(x, '.', '/');
  }

  /** Replacing a character that does not occur changes nothing. */
  lemma ReplaceCharNone(s: string, c: char, d: char)
    requires c !in s
    ensures ReplaceAll(s, [c], [d]) == s
  {
    ReplaceCharAt(s, c, d);
    var r := ReplaceAll(s, [c], [d]);
    forall i | 0 <= i < |s| ensures r[i] == s[i] {
      assert s[i] != c;
    }
  }

  /** Turning the '/' of a string without '.' or "/py" into '.' creates no ".py". */
  lemma SlashesMakeNoPy(x: string)
    requires '.' !in x
    requires forall i :: !OccursAt(x, "/py", i)
    ensures forall i :: !OccursAt(ReplaceAll(x, "/", "."), ".py", i)
  {
    forall i ensures !OccursAt(ReplaceAll(x, "/", "."), ".py", i) {
      SlashDotPy(x, i);
    }
  }

  /** A ".py" after turning '/' into '.' in a string without '.' was a "/py" before. */
  lemma SlashDotPy(x: string, i: int)
    requires '.' !in x
    ensures OccursAt(ReplaceAll(x, "/", "."), ".py", i) ==> OccursAt(x, "/py", i)
  {
    ReplaceCharAt(x, '/', '.');
    var r := ReplaceAll(x, "/", ".");
    if 0 <= i && i + 3 <= |x| {
      assert r[i..i + 3] == [r[i], r[i + 1], r[i + 2]];
      assert x[i..i + 3] == [x[i], x[i + 1], x[i + 2]];
    }
  }

  /**
   * And a file path `x + ".py"` survives the trip to a module name and back,
   * when `x` holds no '.' and no "/py" (a "/py" would become ".py" in the
   * module name and then be dropped on the way back).
   */
  lemma PathModuleRoundTrip(x: string)
    requires '.' !in x
    requires forall i :: !OccursAt(x, "/py", i)
    ensures ModuleToPath(PathToModule(x + ".py")) == x + ".py"
  {
    ReplaceSuffix(x, ".py", "");
    assert x + "" == x;
    var m := ReplaceAll(x, "/", ".");
    assert PathToModule(x + ".py") == m;
    SlashesMakeNoPy(x);
    ReplaceAbsent(m, ".py", "");
    ReplaceCharGone(x, '/', '.');
    ReplaceCharNone(m, '/', '.');
    assert PathToModule(m) == m;
    ReplaceCharBack(x, '/', '.');
  }

  /**
   * Every ".py" is dropped, not only a final one: the path "a.pyc/b.py"
   * gives the module "ac.b".
   */
  lemma PathToModuleDropsInner(x: string, y: string, z: string)
    requires '.' !in x + y + z && '/' !in x + y + z
    ensures PathToModule(x + ".py" + y + "/" + z + ".py") == x + y + "." + z
  {
    assert '.' !in x && '.' !in y + "/" + z by {
      assert forall c :: c in y + "/" + z ==> c in y || c == '/' || c in z;
    }
    DropPyInner(x, y + "/" + z);
    assert x + ".py" + y + "/" + z + ".py" == x + ".py" + (y + "/" + z) + ".py";
    assert x + (y + "/" + z) == (x + y) + ("/" + z);
    SlashToDot(x + y, z);
    assert (x + y) + ("." + z) == x + y + "." + z;
  }

  /** Dropping ".py" from `x + ".py" + w + ".py"`, with no '.' in `x` or `w`, leaves `x + w`. */
  lemma DropPyInner(x: string, w: string)
    requires '.' !in x && '.' !in w
    ensures ReplaceAll(x + ".py" + w + ".py", ".py", "") == x + w
  {
    var py := ".py";
    var t := w + py;
    var u := py + t;
    ReplaceSuffix(w, py, "");
    assert ReplaceAll(t, py, "") == w by {
      assert w + "" == w;
    }
    ReplaceHead(t, py, "");
    assert ReplaceAll(u, py, "") == w;
    ReplaceFree(x, u, py, "");
    assert x + ".py" + w + ".py" == x + u;
  }

  /** The one '/' between two '/'-free parts becomes '.'. */
  lemma SlashToDot(x: string, z: string)
    requires '/' !in x && '/' !in z
    ensures ReplaceAll(x + ("/" + z), "/", ".") == x + ("." + z)
  {
    ReplaceCharNone(z, '/', '.');
    ReplaceHead(z, "/", ".");
    ReplaceFree(x, "/" + z, "/", ".");
  }

  /** A prefix that cannot start `pat` is copied over unchanged. */
  lemma {:induction false} ReplaceFree(x: string, t: string, pat: string, rep: string)
    requires |pat| > 0 && pat[0] !in x
    ensures ReplaceAll(x + t, pat, rep) == x + ReplaceAll(t, pat, rep)
    decreases |x|
  {
    if x != [] {
      ReplaceFree(x[1..], t, pat, rep);
      ReplaceSkip(x[0], x[1..] + t, pat, rep);
      assert x + t == [x[0]] + (x[1..] + t);
      assert x + ReplaceAll(t, pat, rep) == [x[0]] + (x[1..] + ReplaceAll(t, pat, rep));
    } else {
      assert x + t == t;
    }
  }

  /** An occurrence of `pat` at the front is replaced. */
  lemma ReplaceHead(t: string, pat: string, rep: string)
    requires |pat| > 0
    ensures ReplaceAll(pat + t, pat, rep) == rep + ReplaceAll(t, pat, rep)
  {
    var s := pat + t;
    assert s[..|pat|] == pat;
    assert s[|pat|..] == t;
  }
}
