/**
 * The plugin manager: it discovers the default and the custom plugin
 * classes, filters the configured list of request plugins down to valid
 * plugin classes, and classifies a logged request by the first enabled
 * plugin that claims it.
 *
 * PHP's class registry is the `ClassTable` given to the manager (after the
 * custom plugin files have been loaded); a plugin directory is the list of
 * its files, names and contents.
 */
module PluginManagement {

  import opened Wrappers
  import opened PhpStrings
  import opened Plugins

  /** The namespace every plugin class name is put in. */
  const PluginNamespace := "Expose\\Client\\Logger\\Plugins\\"
  /** The text a custom plugin file must contain to be looked at. */
  const BasePluginClass := "Expose\\Client\\Logger\\Plugins\\BasePlugin"

  /** What class_exists and is_subclass_of(…, BasePlugin) say of a loaded class. */
  datatype ClassKind = NotAPlugin | Plugin(behaviour: PluginBehaviour)

  /** The loaded classes by name; a name not in the table is a class that does not exist. */
  type ClassTable = map<string, ClassKind>

  predicate IsPluginClass(classes: ClassTable, name: string) {
    name in classes && classes[name].Plugin?
  }

  // ---------------------------------------------------------------------------
  // Filtering the configured plugins

  /** The valid plugin classes of a list, in order, each occurrence kept or dropped with its name. */
  function KeepValid(classes: ClassTable, names: seq<string>): (r: seq<string>)
    ensures forall i :: 0 <= i < |r| ==> IsPluginClass(classes, r[i])
    ensures forall x :: x in r <==> x in names && IsPluginClass(classes, x)
    decreases |names|
  {
    if |names| == 0 then []
    else (if IsPluginClass(classes, names[0]) then [names[0]] else []) + KeepValid(classes, names[1..])
  }

  /** `a` is `b` with some entries left out, the rest in their order. */
  predicate IsSubsequence(a: seq<string>, b: seq<string>)
    decreases |b|
  {
    |a| == 0 || (|b| > 0 && (if a[0] == b[0] then IsSubsequence(a[1..], b[1..]) else IsSubsequence(a, b[1..])))
  }

  /** Filtering keeps the order of the configured list. */
  lemma {:induction false} KeepValidIsSubsequence(classes: ClassTable, names: seq<string>)
    ensures IsSubsequence(KeepValid(classes, names), names)
    decreases |names|
  {
    if |names| > 0 {
      KeepValidIsSubsequence(classes, names[1..]);
      var rest := KeepValid(classes, names[1..]);
      if !IsPluginClass(classes, names[0]) {
        assert KeepValid(classes, names) == rest;
        if |rest| > 0 {
          assert rest[0] != names[0];
        }
      } else {
        assert KeepValid(classes, names) == [names[0]] + rest;
        assert KeepValid(classes, names)[1..] == rest;
      }
    }
  }

  /** Every occurrence of a valid class is kept, and every occurrence of an invalid one dropped. */
  lemma {:induction false} KeepValidCounts(classes: ClassTable, names: seq<string>, x: string)
    ensures multiset(KeepValid(classes, names))[x] == if IsPluginClass(classes, x) then multiset(names)[x] else 0
    decreases |names|
  {
    if |names| > 0 {
      KeepValidCounts(classes, names[1..], x);
      assert names == [names[0]] + names[1..];
    }
  }

  /** Filtering a concatenation filters each part. */
  lemma {:induction false} KeepValidAppend(classes: ClassTable, a: seq<string>, b: seq<string>)
    ensures KeepValid(classes, a + b) == KeepValid(classes, a) + KeepValid(classes, b)
    decreases |a|
  {
    if |a| == 0 {
      assert a + b == b;
    } else {
      assert (a + b)[1..] == a[1..] + b;
      KeepValidAppend(classes, a[1..], b);
    }
  }

  /** The entries of a list not among `drop`, in order. */
  function Without(names: seq<string>, drop: set<string>): (r: seq<string>)
    ensures forall x :: x in r <==> x in names && x !in drop
    decreases |names|
  {
    if |names| == 0 then []
    else (if names[0] in drop then [] else [names[0]]) + Without(names[1..], drop)
  }

  lemma {:induction false} WithoutNothing(names: seq<string>)
    ensures Without(names, {}) == names
    decreases |names|
  {
    if |names| > 0 {
      WithoutNothing(names[1..]);
      assert names == [names[0]] + names[1..];
    }
  }

  /** Every occurrence of a dropped name goes, every occurrence of any other name stays. */
  lemma {:induction false} WithoutCounts(names: seq<string>, drop: set<string>)
    ensures forall x :: multiset(Without(names, drop))[x] == if x in drop then 0 else multiset(names)[x]
    decreases |names|
  {
    if |names| > 0 {
      WithoutCounts(names[1..], drop);
      assert names == [names[0]] + names[1..];
    }
  }

  /** Removing names keeps the order of the rest. */
  lemma {:induction false} WithoutIsSubsequence(names: seq<string>, drop: set<string>)
    ensures IsSubsequence(Without(names, drop), names)
    decreases |names|
  {
    if |names| > 0 {
      WithoutIsSubsequence(names[1..], drop);
      var rest := Without(names[1..], drop);
      if names[0] in drop {
        assert Without(names, drop) == rest;
        if |rest| > 0 {
          assert rest[0] != names[0];
        }
      } else {
        assert Without(names, drop) == [names[0]] + rest;
        assert Without(names, drop)[1..] == rest;
      }
    }
  }

  /** array_diff($names, [$value]): every occurrence of `value` removed, the rest in order. */
  function ArrayDiff(names: seq<string>, value: string): (r: seq<string>)
    ensures forall x :: x in r <==> x in names && x != value
    ensures forall x :: multiset(r)[x] == if x == value then 0 else multiset(names)[x]
    ensures IsSubsequence(r, names)
  {
    WithoutCounts(names, {value});
    WithoutIsSubsequence(names, {value});
    Without(names, {value})
  }

  lemma {:induction false} WithoutTwice(names: seq<string>, drop: set<string>, value: string)
    ensures ArrayDiff(Without(names, drop), value) == Without(names, drop + {value})
    decreases |names|
  {
    if |names| > 0 {
      WithoutTwice(names[1..], drop, value);
      if names[0] in drop {
        assert Without(names, drop) == Without(names[1..], drop);
      } else {
        assert Without(names, drop) == [names[0]] + Without(names[1..], drop);
        assert Without(names, drop)[1..] == Without(names[1..], drop);
      }
    }
  }

  /** The names of a list that are not loaded plugin classes. */
  function InvalidAmong(classes: ClassTable, names: seq<string>): (r: set<string>)
    ensures forall x :: x in r <==> x in names && !IsPluginClass(classes, x)
  {
    set x | x in names && !IsPluginClass(classes, x)
  }

  lemma InvalidAmongStep(classes: ClassTable, names: seq<string>, i: nat)
    requires i < |names|
    ensures InvalidAmong(classes, names[..i + 1]) ==
      InvalidAmong(classes, names[..i]) + (if IsPluginClass(classes, names[i]) then {} else {names[i]})
  {
    assert names[..i + 1] == names[..i] + [names[i]];
  }

  /** Dropping exactly the invalid names of a list is filtering it. */
  lemma {:induction false} WithoutInvalid(classes: ClassTable, names: seq<string>, drop: set<string>)
    requires forall x :: x in names ==> (x in drop <==> !IsPluginClass(classes, x))
    ensures Without(names, drop) == KeepValid(classes, names)
    decreases |names|
  {
    if |names| > 0 {
      WithoutInvalid(classes, names[1..], drop);
    }
  }

  // ---------------------------------------------------------------------------
  // Discovering plugin files

  /** A plugin directory entry: the file's name and its contents. */
  datatype PluginFile = PluginFile(name: string, contents: string)

  /** A file the `*.php` name filter lets through; dot files are skipped. */
  predicate IsPhpFileName(name: string) {
    EndsWith(name, ".php") && !StartsWith(name, ".")
  }

  /** The file name without its `.php` extension. */
  function FileNameWithoutExtension(name: string): (r: string)
    ensures EndsWith(name, ".php") ==> r + ".php" == name
    ensures !EndsWith(name, ".php") ==> r == name
  {
    if EndsWith(name, ".php") then name[..|name| - 4] else name
  }

  /** The class a plugin file is expected to declare. */
  function ClassNameOf(fileName: string): (r: string)
    ensures StartsWith(r, PluginNamespace)
    ensures EndsWith(fileName, ".php") ==> r + ".php" == PluginNamespace + fileName
  {
    var r := PluginNamespace + FileNameWithoutExtension(fileName);
    assert r[..|PluginNamespace|] == PluginNamespace;
    r
  }

  /**
   * A file is discovered when its name is a `.php` name, its class is a
   * loaded subclass of BasePlugin, and, in the custom directory, its text
   * mentions BasePlugin.
   */
  predicate Discoverable(classes: ClassTable, f: PluginFile, requireMarker: bool) {
    && IsPhpFileName(f.name)
    && (requireMarker ==> Contains(f.contents, BasePluginClass))
    && IsPluginClass(classes, ClassNameOf(f.name))
  }

  function SelectFiles(classes: ClassTable, files: seq<PluginFile>, requireMarker: bool): (r: seq<PluginFile>)
    ensures forall f :: f in r <==> f in files && Discoverable(classes, f, requireMarker)
    decreases |files|
  {
    if |files| == 0 then []
    else
      (if Discoverable(classes, files[0], requireMarker) then [files[0]] else [])
      + SelectFiles(classes, files[1..], requireMarker)
  }

  /** Every discoverable file is selected as often as it is listed; no other file is. */
  lemma {:induction false} SelectFilesCounts(classes: ClassTable, files: seq<PluginFile>, requireMarker: bool)
    ensures forall f ::
      multiset(SelectFiles(classes, files, requireMarker))[f] ==
      (if Discoverable(classes, f, requireMarker) then multiset(files)[f] else 0)
    decreases |files|
  {
    if |files| > 0 {
      SelectFilesCounts(classes, files[1..], requireMarker);
      assert files == [files[0]] + files[1..];
    }
  }

  /** Selection keeps the listing order: selecting from a concatenation selects from each part. */
  lemma {:induction false} SelectFilesAppend(classes: ClassTable, a: seq<PluginFile>, b: seq<PluginFile>, requireMarker: bool)
    ensures SelectFiles(classes, a + b, requireMarker) ==
      SelectFiles(classes, a, requireMarker) + SelectFiles(classes, b, requireMarker)
    decreases |a|
  {
    if |a| == 0 {
      assert a + b == b;
    } else {
      assert (a + b)[0] == a[0];
      assert (a + b)[1..] == a[1..] + b;
      SelectFilesAppend(classes, a[1..], b, requireMarker);
    }
  }

  /** strcmp(a, b) <= 0: `a` is a prefix of `b` or is smaller at their first difference. */
  predicate NameLe(a: string, b: string)
    decreases |a|
  {
    |a| == 0 || (|b| > 0 && (a[0] < b[0] || (a[0] == b[0] && NameLe(a[1..], b[1..]))))
  }

  lemma {:induction false} NameLeTotal(a: string, b: string)
    ensures NameLe(a, b) || NameLe(b, a)
    decreases |a|
  {
    if |a| > 0 && |b| > 0 && a[0] == b[0] {
      NameLeTotal(a[1..], b[1..]);
    }
  }

  lemma {:induction false} NameLeTransitive(a: string, b: string, c: string)
    requires NameLe(a, b) && NameLe(b, c)
    ensures NameLe(a, c)
    decreases |a|
  {
    if |a| > 0 && a[0] == b[0] && b[0] == c[0] {
      NameLeTransitive(a[1..], b[1..], c[1..]);
    }
  }

  predicate SortedByName(files: seq<PluginFile>) {
    forall i, j :: 0 <= i < j < |files| ==> NameLe(files[i].name, files[j].name)
  }

  function InsertByName(f: PluginFile, sorted: seq<PluginFile>): (r: seq<PluginFile>)
    requires SortedByName(sorted)
    ensures SortedByName(r)
    ensures multiset(r) == multiset(sorted) + multiset{f}
    decreases |sorted|
  {
    if |sorted| == 0 then [f]
    else if NameLe(f.name, sorted[0].name) then
      InsertInFront(f, sorted);
      [f] + sorted
    else
      var rest := InsertByName(f, sorted[1..]);
      InsertBehind(f, sorted, rest);
      [sorted[0]] + rest
  }

  /** A file no greater than the first of a sorted list goes in front of it. */
  lemma InsertInFront(f: PluginFile, sorted: seq<PluginFile>)
    requires SortedByName(sorted) && |sorted| > 0 && NameLe(f.name, sorted[0].name)
    ensures SortedByName([f] + sorted)
    ensures multiset([f] + sorted) == multiset(sorted) + multiset{f}
  {
    forall j | 0 < j < |sorted|
      ensures NameLe(f.name, sorted[j].name)
    {
      NameLeTransitive(f.name, sorted[0].name, sorted[j].name);
    }
  }

  /** A file greater than the first of a sorted list goes somewhere behind it. */
  lemma InsertBehind(f: PluginFile, sorted: seq<PluginFile>, rest: seq<PluginFile>)
    requires SortedByName(sorted) && |sorted| > 0 && !NameLe(f.name, sorted[0].name)
    requires SortedByName(rest) && multiset(rest) == multiset(sorted[1..]) + multiset{f}
    ensures SortedByName([sorted[0]] + rest)
    ensures multiset([sorted[0]] + rest) == multiset(sorted) + multiset{f}
  {
    var r := [sorted[0]] + rest;
    NameLeTotal(f.name, sorted[0].name);
    assert sorted == [sorted[0]] + sorted[1..];
    forall j | 0 < j < |r|
      ensures NameLe(sorted[0].name, r[j].name)
    {
      assert r[j] == rest[j - 1];
      assert r[j] in multiset(rest);
      if r[j] != f {
        assert r[j] in multiset(sorted[1..]);
        var k :| 0 <= k < |sorted[1..]| && sorted[1..][k] == r[j];
        assert sorted[k + 1] == r[j];
      }
    }
  }

  /** sortByName: the files in ascending order of their names. */
  function SortByName(files: seq<PluginFile>): (r: seq<PluginFile>)
    ensures SortedByName(r)
    ensures multiset(r) == multiset(files)
    decreases |files|
  {
    if |files| == 0 then []
    else
      assert files == [files[0]] + files[1..];
      InsertByName(files[0], SortByName(files[1..]))
  }

  /** The class names of files, in the files' order. */
  function ClassNames(files: seq<PluginFile>): (r: seq<string>)
    ensures |r| == |files|
    ensures forall i :: 0 <= i < |r| ==> r[i] == ClassNameOf(files[i].name)
  {
    seq(|files|, i requires 0 <= i < |files| => ClassNameOf(files[i].name))
  }

  /** Listing one more file appends its class name. */
  lemma ClassNamesStep(files: seq<PluginFile>, i: nat)
    requires i < |files|
    ensures ClassNames(files[..i + 1]) == ClassNames(files[..i]) + [ClassNameOf(files[i].name)]
  {
    assert files[..i + 1][i] == files[i];
  }

  /** The files a plugin directory contributes, in the order their classes are listed. */
  function DiscoveredFiles(classes: ClassTable, files: seq<PluginFile>, requireMarker: bool): (r: seq<PluginFile>)
    ensures SortedByName(r)
    ensures multiset(r) == multiset(SelectFiles(classes, files, requireMarker))
    ensures forall f :: f in r <==> f in files && Discoverable(classes, f, requireMarker)
  {
    var selected := SelectFiles(classes, files, requireMarker);
    var r := SortByName(selected);
    assert forall f :: f in r <==> f in multiset(selected);
    r
  }

  /** Every discovered class is a valid plugin class in the plugin namespace. */
  lemma DiscoveredAreValid(classes: ClassTable, files: seq<PluginFile>, requireMarker: bool)
    ensures var names := ClassNames(DiscoveredFiles(classes, files, requireMarker));
      forall i :: 0 <= i < |names| ==> IsPluginClass(classes, names[i]) && StartsWith(names[i], PluginNamespace)
  {
    var found := DiscoveredFiles(classes, files, requireMarker);
    forall i | 0 <= i < |found|
      ensures IsPluginClass(classes, ClassNameOf(found[i].name))
    {
      assert found[i] in found;
    }
  }

  /** A class is discovered exactly when some file of the directory is discoverable and declares it. */
  lemma DiscoveredNames(classes: ClassTable, files: seq<PluginFile>, requireMarker: bool, x: string)
    ensures x in ClassNames(DiscoveredFiles(classes, files, requireMarker)) <==>
      exists f :: f in files && Discoverable(classes, f, requireMarker) && ClassNameOf(f.name) == x
  {
    var found := DiscoveredFiles(classes, files, requireMarker);
    if x in ClassNames(found) {
      var f := DiscoveredNameHasFile(found, x);
      assert f in files && Discoverable(classes, f, requireMarker);
    }
    if exists f :: f in files && Discoverable(classes, f, requireMarker) && ClassNameOf(f.name) == x {
      var f :| f in files && Discoverable(classes, f, requireMarker) && ClassNameOf(f.name) == x;
      assert f in found;
      FileNameIsListed(found, f);
    }
  }

  /** A listed class name comes from one of the files. */
  lemma DiscoveredNameHasFile(found: seq<PluginFile>, x: string) returns (f: PluginFile)
    requires x in ClassNames(found)
    ensures f in found && ClassNameOf(f.name) == x
  {
    var k :| 0 <= k < |found| && ClassNames(found)[k] == x;
    f := found[k];
  }

  /** Every file's class name is listed. */
  lemma FileNameIsListed(found: seq<PluginFile>, f: PluginFile)
    requires f in found
    ensures ClassNameOf(f.name) in ClassNames(found)
  {
    var k :| 0 <= k < |found| && found[k] == f;
    assert ClassNames(found)[k] == ClassNameOf(f.name);
  }

  // ---------------------------------------------------------------------------
  // Classifying a logged request

  /** What one iteration of loadPluginData ends in. */
  datatype Outcome =
    | Skip                      // no match, or an \Exception was caught
    | Hit(data: PluginData)     // the plugin matched and reported
    | Abort(error: Throwable)   // an \Error escaped the loop

  /** An \Exception is caught and the loop moves on; an \Error escapes. */
  function Catch(e: Throwable): (o: Outcome)
    ensures o.Skip? <==> e.Exception?
    ensures o.Abort? ==> o.error == e
    ensures e.Error? ==> o == Abort(e)
  {
    if e.Exception? then Skip else Abort(e)
  }

  /** make, then matchesRequest, then getPluginData, inside try/catch (\Exception). */
  function AttemptPlugin(b: PluginBehaviour, req: LoggedRequest): (o: Outcome)
    ensures o.Abort? ==> o.error.Error?
    ensures o.Hit? <==> b.make(req).Ok? && b.matchesRequest(req) == Ok(true) && b.getPluginData(req).Ok?
    ensures o.Hit? ==> o.data == b.getPluginData(req).value
    ensures b.make(req).Raised? && b.make(req).thrown.Exception? ==> o.Skip?
    ensures b.make(req).Ok? && b.matchesRequest(req).Raised? && b.matchesRequest(req).thrown.Exception? ==> o.Skip?
    ensures (b.make(req).Ok? && b.matchesRequest(req) == Ok(true) && b.getPluginData(req).Raised?
             && b.getPluginData(req).thrown.Exception?) ==> o.Skip?
    ensures b.make(req).Ok? && b.matchesRequest(req) == Ok(false) ==> o == Skip
    ensures b.make(req).Raised? && b.make(req).thrown.Error? ==> o == Abort(b.make(req).thrown)
    ensures (b.make(req).Ok? && b.matchesRequest(req).Raised? && b.matchesRequest(req).thrown.Error?)
              ==> o == Abort(b.matchesRequest(req).thrown)
    ensures (b.make(req).Ok? && b.matchesRequest(req) == Ok(true) && b.getPluginData(req).Raised?
             && b.getPluginData(req).thrown.Error?) ==> o == Abort(b.getPluginData(req).thrown)
  {
    match b.make(req)
    case Raised(e) => Catch(e)
    case Ok(_) =>
      match b.matchesRequest(req)
      case Raised(e) => Catch(e)
      case Ok(matched) =>
        if !matched then Skip
        else
          match b.getPluginData(req)
          case Raised(e) => Catch(e)
          case Ok(d) => Hit(d)
  }

  /**
   * One enabled class name: a plugin is attempted; calling `make` on a name
   * that is not a loaded plugin class raises an \Error, which escapes.
   */
  function Attempt(classes: ClassTable, name: string, req: LoggedRequest): (o: Outcome)
    ensures IsPluginClass(classes, name) ==> o == AttemptPlugin(classes[name].behaviour, req)
    ensures !IsPluginClass(classes, name) ==> o.Abort? && o.error.Error?
  {
    if name !in classes then Abort(Error("Class \"" + name + "\" not found"))
    else match classes[name]
      case NotAPlugin => Abort(Error("Call to undefined method " + name + "::make()"))
      case Plugin(b) => AttemptPlugin(b, req)
  }

  /** The result of loadPluginData over the enabled names, in order. */
  function Classify(classes: ClassTable, names: seq<string>, req: LoggedRequest): (r: Fallible<Option<PluginData>>)
    ensures r.Raised? ==> r.thrown.Error?
    decreases |names|
  {
    if |names| == 0 then Ok(None)
    else
      match Attempt(classes, names[0], req)
      case Skip => Classify(classes, names[1..], req)
      case Hit(d) => Ok(Some(d))
      case Abort(e) => Raised(e)
  }

  /**
   * The first plugin that reports decides: its data is the result, and no
   * plugin after it is consulted, whatever follows it.
   */
  lemma {:induction false} ClassifyFirstHit(classes: ClassTable, names: seq<string>, req: LoggedRequest,
                                            k: nat, rest: seq<string>)
    requires k < |names| && Attempt(classes, names[k], req).Hit?
    requires forall j :: 0 <= j < k ==> Attempt(classes, names[j], req) == Skip
    ensures Classify(classes, names, req) == Ok(Some(Attempt(classes, names[k], req).data))
    ensures Classify(classes, names[..k + 1] + rest, req) == Classify(classes, names, req)
    decreases k
  {
    var longer := names[..k + 1] + rest;
    assert longer[0] == names[0];
    if k > 0 {
      assert names[1..][..k] + rest == longer[1..];
      ClassifyFirstHit(classes, names[1..], req, k - 1, rest);
    }
  }

  /** No data exactly when every plugin passes: none matches or each throws an \Exception. */
  lemma {:induction false} ClassifyNone(classes: ClassTable, names: seq<string>, req: LoggedRequest)
    ensures Classify(classes, names, req) == Ok(None) <==>
      forall j :: 0 <= j < |names| ==> Attempt(classes, names[j], req) == Skip
    decreases |names|
  {
    if |names| > 0 {
      ClassifyNone(classes, names[1..], req);
      assert forall j :: 1 <= j < |names| ==> names[j] == names[1..][j - 1];
    }
  }

  /** Data is reported only by the first plugin that does not pass. */
  lemma {:induction false} ClassifySome(classes: ClassTable, names: seq<string>, req: LoggedRequest, d: PluginData)
    requires Classify(classes, names, req) == Ok(Some(d))
    ensures exists k :: 0 <= k < |names| && Attempt(classes, names[k], req) == Hit(d) &&
              forall j :: 0 <= j < k ==> Attempt(classes, names[j], req) == Skip
    decreases |names|
  {
    if Attempt(classes, names[0], req) == Hit(d) {
      assert Attempt(classes, names[0], req) == Hit(d);
    } else {
      ClassifySome(classes, names[1..], req, d);
      var k :| 0 <= k < |names[1..]| && Attempt(classes, names[1..][k], req) == Hit(d)
        && forall j :: 0 <= j < k ==> Attempt(classes, names[1..][j], req) == Skip;
      assert names[k + 1] == names[1..][k];
      forall j | 0 <= j < k + 1
        ensures Attempt(classes, names[j], req) == Skip
      {
        if j > 0 {
          assert names[j] == names[1..][j - 1];
        }
      }
    }
  }

  /** A magic-login POST, with MagicLoginPlugin enabled first, is always reported as a Magic Login. */
  lemma MagicLoginFirst(classes: ClassTable, names: seq<string>, req: LoggedRequest,
                        parseForm: string -> map<string, string>)
    requires |names| > 0 && names[0] in classes && classes[names[0]] == Plugin(MagicLoginBehaviour(parseForm))
    requires MagicLoginMatches(req)
    ensures Classify(classes, names, req) == Ok(Some(MagicLoginData(parseForm, req)))
    ensures Classify(classes, names, req).value.value.plugin == "Magic Login"
  {
    ClassifyFirstHit(classes, names, req, 0, []);
  }

  // ---------------------------------------------------------------------------
  // The manager

  class PluginManager {
    /** The loaded classes. */
    const classes: ClassTable
    /** config('expose.request_plugins', []). */
    const configured: seq<string>

    var defaultPlugins: seq<string>
    var customPlugins: seq<string>
    var pluginConfig: seq<string>

    /** Every listed plugin is a valid plugin class, and the enabled ones are the valid configured ones. */
    ghost predicate Valid()
      reads this
    {
      && pluginConfig == KeepValid(classes, configured)
      && (forall i :: 0 <= i < |defaultPlugins| ==> IsPluginClass(classes, defaultPlugins[i]))
      && (forall i :: 0 <= i < |customPlugins| ==> IsPluginClass(classes, customPlugins[i]))
    }

    /**
     * Discovers the default plugins, then the custom ones (none when the
     * custom directory is missing), then filters the configured list.
     */
    constructor(classes: ClassTable, configured: seq<string>,
                defaultFiles: seq<PluginFile>, customFiles: Option<seq<PluginFile>>)
      ensures this.classes == classes && this.configured == configured
      ensures defaultPlugins == ClassNames(DiscoveredFiles(classes, defaultFiles, false))
      ensures customFiles.None? ==> customPlugins == []
      ensures customFiles.Some? ==> customPlugins == ClassNames(DiscoveredFiles(classes, customFiles.value, true))
      ensures pluginConfig == KeepValid(classes, configured)
      ensures Valid()
    {
      this.classes := classes;
      this.configured := configured;
      defaultPlugins := [];
      customPlugins := [];
      pluginConfig := [];
      new;
      var _ := LoadDefaultPlugins(defaultFiles);
      var _ := LoadCustomPlugins(customFiles);
      EnsureValidPluginConfig();
      DiscoveredAreValid(classes, defaultFiles, false);
      if customFiles.Some? {
        DiscoveredAreValid(classes, customFiles.value, true);
      }
    }

    /** getDefaultPlugins */
    function GetDefaultPlugins(): (r: seq<string>)
      reads this
      ensures Valid() ==> forall i :: 0 <= i < |r| ==> IsPluginClass(classes, r[i])
    {
      defaultPlugins
    }

    /** getCustomPlugins */
    function GetCustomPlugins(): (r: seq<string>)
      reads this
      ensures Valid() ==> forall i :: 0 <= i < |r| ==> IsPluginClass(classes, r[i])
    {
      customPlugins
    }

    /** getPlugins: the default plugins, then the custom plugins, each list in its order. */
    function GetPlugins(): (r: seq<string>)
      reads this
      ensures |r| == |defaultPlugins| + |customPlugins|
      ensures r[..|defaultPlugins|] == defaultPlugins && r[|defaultPlugins|..] == customPlugins
      ensures Valid() ==> forall i :: 0 <= i < |r| ==> IsPluginClass(classes, r[i])
    {
      var r := defaultPlugins + customPlugins;
      assert r[..|defaultPlugins|] == defaultPlugins;
      assert r[|defaultPlugins|..] == customPlugins;
      r
    }

    /** getEnabledPlugins: the configured plugins that are valid classes, in configured order. */
    function GetEnabledPlugins(): (r: seq<string>)
      reads this
      ensures Valid() ==> forall i :: 0 <= i < |r| ==> IsPluginClass(classes, r[i])
      ensures Valid() ==> forall x :: x in r <==> x in configured && IsPluginClass(classes, x)
    {
      pluginConfig
    }

    /** isEnabled: a class is enabled exactly when it is configured and a valid plugin class. */
    function IsEnabled(pluginClass: string): (r: bool)
      reads this
      ensures Valid() ==> (r <==> pluginClass in configured && IsPluginClass(classes, pluginClass))
    {
      pluginClass in pluginConfig
    }

    /**
     * ensureValidPluginConfig: starts from the configured list and, for each
     * configured name that is not a loaded plugin class, removes every
     * occurrence of it.
     */
    method EnsureValidPluginConfig()
      modifies this
      ensures pluginConfig == KeepValid(classes, configured)
      ensures defaultPlugins == old(defaultPlugins) && customPlugins == old(customPlugins)
    {
      pluginConfig := configured;
      ghost var dropped: set<string> := {};
      WithoutNothing(configured);
      for i := 0 to |configured|
        invariant pluginConfig == Without(configured, dropped)
        invariant dropped == InvalidAmong(classes, configured[..i])
        invariant defaultPlugins == old(defaultPlugins) && customPlugins == old(customPlugins)
      {
        var pluginClass := configured[i];
        InvalidAmongStep(classes, configured, i);
        if pluginClass !in classes || !classes[pluginClass].Plugin? {
          WithoutTwice(configured, dropped, pluginClass);
          pluginConfig := ArrayDiff(pluginConfig, pluginClass);
          dropped := dropped + {pluginClass};
        }
      }
      assert configured[..|configured|] == configured;
      WithoutInvalid(classes, configured, dropped);
    }

    /** loadDefaultPlugins: the class of every discovered default file, appended in sorted order. */
    method LoadDefaultPlugins(files: seq<PluginFile>) returns (r: seq<string>)
      modifies this
      ensures defaultPlugins == ClassNames(DiscoveredFiles(classes, files, false)) && r == defaultPlugins
      ensures customPlugins == old(customPlugins) && pluginConfig == old(pluginConfig)
    {
      defaultPlugins := [];
      var found := DiscoveredFiles(classes, files, false);
      for i := 0 to |found|
        invariant defaultPlugins == ClassNames(found[..i])
        invariant customPlugins == old(customPlugins) && pluginConfig == old(pluginConfig)
      {
        ClassNamesStep(found, i);
        defaultPlugins := defaultPlugins + [ClassNameOf(found[i].name)];
      }
      assert found[..|found|] == found;
      r := defaultPlugins;
    }

    /**
     * loadCustomPlugins: no custom plugins without a custom directory;
     * otherwise the class of every discovered custom file, appended in
     * sorted order.
     */
    method LoadCustomPlugins(files: Option<seq<PluginFile>>) returns (r: seq<string>)
      modifies this
      ensures files.None? ==> customPlugins == []
      ensures files.Some? ==> customPlugins == ClassNames(DiscoveredFiles(classes, files.value, true))
      ensures r == customPlugins
      ensures defaultPlugins == old(defaultPlugins) && pluginConfig == old(pluginConfig)
    {
      customPlugins := [];
      if files.None? {
        return [];
      }
      var found := DiscoveredFiles(classes, files.value, true);
      for i := 0 to |found|
        invariant customPlugins == ClassNames(found[..i])
        invariant defaultPlugins == old(defaultPlugins) && pluginConfig == old(pluginConfig)
      {
        ClassNamesStep(found, i);
        customPlugins := customPlugins + [ClassNameOf(found[i].name)];
      }
      assert found[..|found|] == found;
      r := customPlugins;
    }

    /**
     * loadPluginData: the enabled plugins are tried in order; the first that
     * matches reports, an \Exception moves on to the next plugin, an \Error
     * escapes, and no match gives null.
     */
    method LoadPluginData(req: LoggedRequest) returns (r: Fallible<Option<PluginData>>)
      ensures r == Classify(classes, pluginConfig, req)
    {
      for i := 0 to |pluginConfig|
        invariant Classify(classes, pluginConfig, req) == Classify(classes, pluginConfig[i..], req)
      {
        assert pluginConfig[i..][1..] == pluginConfig[i + 1..];
        var outcome := Attempt(classes, pluginConfig[i], req);
        match outcome
        case Hit(d) =>
          return Ok(Some(d));
        case Abort(e) =>
          return Raised(e);
        case Skip =>
      }
      return Ok(None);
    }
  }
}
