/**
 * `ComponentClassLoader`: the policy that decides, for a class or resource
 * name, which of two delegate loaders is asked first.
 *
 * The delegates are abstract: what `findLoadedClass`, the component loader
 * (`super.loadClass`, `super.getResources`) and the owner loader return for
 * the name in question are parameters. A class is identified by a value of
 * the type parameter `C`, a resource by a value of `U`. Class loading failures
 * are the two throwables the policy distinguishes; a resource lookup either
 * yields its URLs or throws an IOException (`Thrown`).
 */
module ComponentLoader {
  import opened Common

  /** The loader's configuration, with the resource prefixes derived at construction. */
  datatype Loader = Loader(
    ownerFirstPackages: seq<string>,
    componentFirstPackages: seq<string>,
    ownerFirstResourcePrefixes: seq<string>,
    componentFirstResourcePrefixes: seq<string>,
    /** The entries of the package-prefix-to-module map, in iteration order. */
    knownPackagePrefixesModuleAssociation: seq<(string, string)>)

  /** A class-loading throwable: ClassNotFoundException (with its cause) or NoClassDefFoundError. */
  datatype Failure =
    | ClassNotFound(message: string, cause: Option<Failure>)
    | NoClassDefFound(message: string)

  /** The outcome of asking a loader for a class. */
  datatype LoadResult<C> = Loaded(cls: C) | Failed(failure: Failure)

  /** The constructor: keep the packages and derive their path prefixes. */
  function NewLoader(
    ownerFirstPackages: seq<string>,
    componentFirstPackages: seq<string>,
    knownPackagePrefixesModuleAssociation: seq<(string, string)>): (r: Loader)
    ensures r.ownerFirstPackages == ownerFirstPackages
    ensures r.componentFirstPackages == componentFirstPackages
    ensures r.knownPackagePrefixesModuleAssociation == knownPackagePrefixesModuleAssociation
    ensures PathPrefixesOf(r)
  {
    Loader(ownerFirstPackages, componentFirstPackages,
           ConvertPackagePrefixesToPathPrefixes(ownerFirstPackages),
           ConvertPackagePrefixesToPathPrefixes(componentFirstPackages),
           knownPackagePrefixesModuleAssociation)
  }

  /** The resource prefixes are the package prefixes written as paths, element by element. */
  ghost predicate PathPrefixesOf(l: Loader)
  {
    && |l.ownerFirstResourcePrefixes| == |l.ownerFirstPackages|
    && |l.componentFirstResourcePrefixes| == |l.componentFirstPackages|
    && (forall i :: 0 <= i < |l.ownerFirstPackages| ==>
          l.ownerFirstResourcePrefixes[i] == ReplaceDots(l.ownerFirstPackages[i]))
    && (forall i :: 0 <= i < |l.componentFirstPackages| ==>
          l.componentFirstResourcePrefixes[i] == ReplaceDots(l.componentFirstPackages[i]))
  }

  // ------------------------------------------------------------------------
  // Prefixes
  // ------------------------------------------------------------------------

  /** `Arrays.stream(prefixes).anyMatch(name::startsWith)`. */
  function AnyMatch(prefixes: seq<string>, name: string): (r: bool)
    ensures r <==> exists i :: 0 <= i < |prefixes| && prefixes[i] <= name
  {
    if prefixes == [] then false
    else if prefixes[0] <= name then true
    else
      var rest := AnyMatch(prefixes[1..], name);
      assert forall i :: 1 <= i < |prefixes| ==> prefixes[i] == prefixes[1..][i - 1];
      rest
  }

  /** `packageName.replace('.', '/')`. */
  function ReplaceDots(s: string): (r: string)
    ensures |r| == |s| && '.' !in r
    ensures forall i :: 0 <= i < |s| && s[i] != '.' ==> r[i] == s[i]
    ensures forall i :: 0 <= i < |s| && s[i] == '.' ==> r[i] == '/'
  {
    seq(|s|, i requires 0 <= i < |s| => if s[i] == '.' then '/' else s[i])
  }

  /** `convertPackagePrefixesToPathPrefixes`: same length, same order, each prefix as a path. */
  function ConvertPackagePrefixesToPathPrefixes(packagePrefixes: seq<string>): (r: seq<string>)
    ensures |r| == |packagePrefixes|
    ensures forall i :: 0 <= i < |r| ==>
      |r[i]| == |packagePrefixes[i]| && '.' !in r[i] &&
      forall j :: 0 <= j < |r[i]| ==> r[i][j] == (if packagePrefixes[i][j] == '.' then '/' else packagePrefixes[i][j])
  {
    seq(|packagePrefixes|, i requires 0 <= i < |packagePrefixes| => ReplaceDots(packagePrefixes[i]))
  }

  /** Replacing dots keeps prefixes: a package prefix of a name is a path prefix of its path. */
  lemma {:induction false} ReplaceDotsKeepsPrefix(p: string, s: string)
    requires p <= s
    ensures ReplaceDots(p) <= ReplaceDots(s)
  {
    var rp, rs := ReplaceDots(p), ReplaceDots(s);
    assert forall i :: 0 <= i < |p| ==> rp[i] == rs[i] by {
      forall i | 0 <= i < |p| ensures rp[i] == rs[i] {
        assert p[i] == s[i];
      }
    }
  }

  function IsOwnerFirstClass(l: Loader, name: string): bool { AnyMatch(l.ownerFirstPackages, name) }
  function IsComponentFirstClass(l: Loader, name: string): bool { AnyMatch(l.componentFirstPackages, name) }
  function IsOwnerFirstResource(l: Loader, name: string): bool { AnyMatch(l.ownerFirstResourcePrefixes, name) }
  function IsComponentFirstResource(l: Loader, name: string): bool { AnyMatch(l.componentFirstResourcePrefixes, name) }

  /**
   * A class that is component-first (owner-first) has its class file routed
   * the same way as a resource: the path of the class name starts with the
   * path form of the matching package.
   */
  lemma ClassFileFollowsClassRouting(l: Loader, name: string, suffix: string)
    requires PathPrefixesOf(l)
    ensures IsComponentFirstClass(l, name) ==> IsComponentFirstResource(l, ReplaceDots(name) + suffix)
    ensures IsOwnerFirstClass(l, name) ==> IsOwnerFirstResource(l, ReplaceDots(name) + suffix)
  {
    var path := ReplaceDots(name) + suffix;
    if IsComponentFirstClass(l, name) {
      var i :| 0 <= i < |l.componentFirstPackages| && l.componentFirstPackages[i] <= name;
      ReplaceDotsKeepsPrefix(l.componentFirstPackages[i], name);
      assert l.componentFirstResourcePrefixes[i] <= path;
    }
    if IsOwnerFirstClass(l, name) {
      var i :| 0 <= i < |l.ownerFirstPackages| && l.ownerFirstPackages[i] <= name;
      ReplaceDotsKeepsPrefix(l.ownerFirstPackages[i], name);
      assert l.ownerFirstResourcePrefixes[i] <= path;
    }
  }

  // ------------------------------------------------------------------------
  // Class loading
  // ------------------------------------------------------------------------

  /**
   * The try/catch of `loadClassFromComponentFirst` and `loadClassFromOwnerFirst`:
   * the first loader's class, or, when it throws either failure, whatever
   * the second loader gives.
   */
  function FirstSuccess<C>(first: LoadResult<C>, second: LoadResult<C>): (r: LoadResult<C>)
    ensures r == first || r == second
    ensures r.Loaded? <==> first.Loaded? || second.Loaded?
    ensures first.Loaded? ==> r == first
  {
    if first.Loaded? then first else second
  }

  /**
   * Lines 113-123 of `loadClass`: component-first wins over owner-first; a
   * name matching neither is asked of the component loader only.
   */
  function Delegate<C>(l: Loader, name: string, component: LoadResult<C>, owner: LoadResult<C>): LoadResult<C>
  {
    if IsComponentFirstClass(l, name) then FirstSuccess(component, owner)
    else if IsOwnerFirstClass(l, name) then FirstSuccess(owner, component)
    else component
  }

  /** The module of the first association, in iteration order, whose key prefixes the name. */
  function FirstAssociatedModule(associations: seq<(string, string)>, name: string): (r: Option<string>)
    ensures r.None? <==> forall i :: 0 <= i < |associations| ==> !(associations[i].0 <= name)
    ensures r.Some? ==>
      exists i :: 0 <= i < |associations| && associations[i].0 <= name &&
        r.value == associations[i].1 && forall j :: 0 <= j < i ==> !(associations[j].0 <= name)
  {
    if associations == [] then None
    else if associations[0].0 <= name then Some(associations[0].1)
    else
      var rest := FirstAssociatedModule(associations[1..], name);
      assert forall i :: 1 <= i < |associations| ==> associations[i] == associations[1..][i - 1];
      if rest.Some? then
        ghost var k :| 0 <= k < |associations[1..]| && associations[1..][k].0 <= name &&
          rest.value == associations[1..][k].1 && forall j :: 0 <= j < k ==> !(associations[1..][j].0 <= name);
        assert associations[k + 1].0 <= name && rest.value == associations[k + 1].1;
        assert forall j :: 0 <= j < k + 1 ==> !(associations[j].0 <= name) by {
          forall j | 0 <= j < k + 1 ensures !(associations[j].0 <= name) {
            if j > 0 { assert associations[j] == associations[1..][j - 1]; }
          }
        }
        rest
      else
        rest
  }

  /** The message of the re-thrown exception. */
  function ModuleHint(name: string, moduleName: string): string
  {
    "Class '" + name + "' not found. Perhaps you forgot to add the module '" + moduleName + "' to the classpath?"
  }

  /**
   * `loadClass(name, resolve)`: an already-loaded class first, then the
   * routed delegation; a ClassNotFoundException is re-thrown with the module
   * hint when a known prefix matches, and a NoClassDefFoundError passes
   * through untouched.
   */
  function LoadClass<C>(l: Loader, name: string, loaded: Option<C>, component: LoadResult<C>, owner: LoadResult<C>): (r: LoadResult<C>)
    ensures loaded.Some? ==> r == Loaded(loaded.value)
    ensures loaded.None? && Delegate(l, name, component, owner).Loaded? ==> r == Delegate(l, name, component, owner)
    ensures loaded.None? && Delegate(l, name, component, owner).Failed? ==> r.Failed?
  {
    if loaded.Some? then Loaded(loaded.value)
    else
      var result := Delegate(l, name, component, owner);
      if result.Failed? && result.failure.ClassNotFound? then
        match FirstAssociatedModule(l.knownPackagePrefixesModuleAssociation, name)
        case Some(moduleName) => Failed(ClassNotFound(ModuleHint(name, moduleName), Some(result.failure)))
        case None => result
      else result
  }

  /**
   * Which delegate's class `loadClass` returns when both would succeed:
   * the component's for component-first names (even if owner-first also
   * matches), the owner's for the remaining owner-first names, and the
   * component's otherwise.
   */
  lemma LoadClassPrecedence<C>(l: Loader, name: string, fromComponent: C, fromOwner: C)
    ensures IsComponentFirstClass(l, name) ==>
      LoadClass(l, name, None, Loaded(fromComponent), Loaded(fromOwner)) == Loaded(fromComponent)
    ensures !IsComponentFirstClass(l, name) && IsOwnerFirstClass(l, name) ==>
      LoadClass(l, name, None, Loaded(fromComponent), Loaded(fromOwner)) == Loaded(fromOwner)
    ensures !IsComponentFirstClass(l, name) && !IsOwnerFirstClass(l, name) ==>
      LoadClass(l, name, None, Loaded(fromComponent), Loaded(fromOwner)) == Loaded(fromComponent)
  {
  }

  /**
   * When `loadClass` succeeds: a class was already loaded, the component
   * loader found it, or the name is component-first or owner-first and the
   * owner found it. A component-only name never consults the owner.
   */
  lemma LoadClassSucceeds<C>(l: Loader, name: string, loaded: Option<C>, component: LoadResult<C>, owner: LoadResult<C>)
    ensures LoadClass(l, name, loaded, component, owner).Loaded? <==>
      loaded.Some? || component.Loaded? ||
      ((IsComponentFirstClass(l, name) || IsOwnerFirstClass(l, name)) && owner.Loaded?)
    ensures !IsComponentFirstClass(l, name) && !IsOwnerFirstClass(l, name) ==>
      forall other: LoadResult<C> :: LoadClass(l, name, loaded, component, other) == LoadClass(l, name, loaded, component, owner)
  {
  }

  /**
   * The failure `loadClass` throws: the delegation's ClassNotFoundException
   * wrapped with the first matching module's hint, the same exception when no
   * known prefix matches, and a NoClassDefFoundError as it is.
   */
  lemma LoadClassFailure<C>(l: Loader, name: string, component: LoadResult<C>, owner: LoadResult<C>)
    requires Delegate(l, name, component, owner).Failed?
    ensures var e := Delegate(l, name, component, owner).failure;
      var hint := FirstAssociatedModule(l.knownPackagePrefixesModuleAssociation, name);
      var r := LoadClass(l, name, None, component, owner);
      && (e.ClassNotFound? && hint.Some? ==> r == Failed(ClassNotFound(ModuleHint(name, hint.value), Some(e))))
      && (e.ClassNotFound? && hint.None? ==> r == Failed(e))
      && (e.NoClassDefFound? ==> r == Failed(e))
  {
  }

  // ------------------------------------------------------------------------
  // Resource loading
  // ------------------------------------------------------------------------

  /**
   * `loadResourcesInOrder`: the first source is asked first and its
   * IOException propagates; otherwise the second source's, and otherwise
   * all URLs of the first followed by all of the second.
   */
  function ResourcesInOrder<U>(first: Returned<seq<U>>, second: Returned<seq<U>>): (r: Returned<seq<U>>)
    ensures first.Thrown? ==> r == first
    ensures first.Value? && second.Thrown? ==> r == second
    ensures first.Value? && second.Value? ==>
      && r.Value?
      && |r.value| == |first.value| + |second.value|
      && r.value[..|first.value|] == first.value
      && r.value[|first.value|..] == second.value
  {
    if first.Thrown? then first
    else if second.Thrown? then second
    else Value(first.value + second.value)
  }

  /** `getResources(name)`: the same precedence as classes, on the path prefixes. */
  function GetResources<U>(l: Loader, name: string, component: Returned<seq<U>>, owner: Returned<seq<U>>): Returned<seq<U>>
  {
    if IsComponentFirstResource(l, name) then ResourcesInOrder(component, owner)
    else if IsOwnerFirstResource(l, name) then ResourcesInOrder(owner, component)
    else component
  }

  /** `getResource(name)`: the first URL, or None (Java's null) when there is none or on IOException. */
  function GetResource<U>(l: Loader, name: string, component: Returned<seq<U>>, owner: Returned<seq<U>>): (r: Option<U>)
    ensures GetResources(l, name, component, owner).Thrown? ==> r.None?
    ensures GetResources(l, name, component, owner) == Value([]) ==> r.None?
    ensures r.Some? ==> r.value in GetResources(l, name, component, owner).value
    ensures GetResources(l, name, component, owner).Value? && GetResources(l, name, component, owner).value != [] ==>
      r == Some(GetResources(l, name, component, owner).value[0])
  {
    match GetResources(l, name, component, owner)
    case Thrown(_) => None
    case Value(urls) => if urls == [] then None else Some(urls[0])
  }

  /**
   * `getResources` lists the preferred loader's URLs before the other's:
   * component then owner for component-first paths, owner then component for
   * the remaining owner-first paths, and the component's alone otherwise.
   */
  lemma GetResourcesOrder<U>(l: Loader, name: string, fromComponent: seq<U>, fromOwner: seq<U>)
    ensures IsComponentFirstResource(l, name) ==>
      GetResources(l, name, Value(fromComponent), Value(fromOwner)) == Value(fromComponent + fromOwner)
    ensures !IsComponentFirstResource(l, name) && IsOwnerFirstResource(l, name) ==>
      GetResources(l, name, Value(fromComponent), Value(fromOwner)) == Value(fromOwner + fromComponent)
    ensures !IsComponentFirstResource(l, name) && !IsOwnerFirstResource(l, name) ==>
      GetResources(l, name, Value(fromComponent), Value(fromOwner)) == Value(fromComponent)
  {
  }

  /**
   * For a component-first path `getResource` returns the component's first
   * URL when it has one and the owner's first otherwise; an IOException from
   * either loader gives None.
   */
  lemma GetResourceComponentFirst<U>(l: Loader, name: string, component: Returned<seq<U>>, owner: Returned<seq<U>>)
    requires IsComponentFirstResource(l, name)
    ensures component.Thrown? || owner.Thrown? ==> GetResource(l, name, component, owner) == None
    ensures component.Value? && owner.Value? && component.value != [] ==>
      GetResource(l, name, component, owner) == Some(component.value[0])
    ensures component.Value? && owner.Value? && component.value == [] && owner.value != [] ==>
      GetResource(l, name, component, owner) == Some(owner.value[0])
  {
    if component.Value? && owner.Value? && component.value == [] {
      assert component.value + owner.value == owner.value;
    }
  }
}
