/** The package checks of pkg/bundle/spec/validation.go and what they guarantee to the dependency graph. */
module BundleValidation {
  import opened Walks
  import opened DependencyGraph

  const SUPPORTED_API_VERSION := "uds.dev/v1alpha1"

  datatype Bundle = Bundle(apiVersion: string, name: string, packages: seq<Package>)

  datatype ValidationError =
    | APIVersionRequired
    | UnsupportedAPIVersion(actual: string)
    | MetadataNameRequired
    | PackagesRequired
    | PackageNameRequired(index: nat)
    | InvalidPackageName(index: nat, name: string)
    | DuplicatePackageName(index: nat, name: string)
    | SourceRequired(package: string)
    | SelfDependency(package: string)
    | UnknownDependency(package: string, dependency: string)
    | EmptyOptionalComponent(package: string)
    | DuplicateOptionalComponent(package: string, component: string)

  predicate LegalName(name: string) {
    '/' !in name && '\\' !in name && name != "." && name != ".."
  }

  predicate ContainsPackage(packages: seq<Package>, name: string) {
    exists i :: 0 <= i < |packages| && packages[i].name == name
  }

  // What each error means.

  ghost predicate NamedBefore(packages: seq<Package>, i: nat)
    requires i < |packages|
  {
    exists k :: 0 <= k < i && packages[k].name == packages[i].name
  }

  ghost predicate Repeated(xs: seq<string>, x: string) {
    exists j, k :: 0 <= j < k < |xs| && xs[j] == x && xs[k] == x
  }

  /** The i-th package gives cause for the error. */
  ghost predicate Faulty(packages: seq<Package>, i: nat, e: ValidationError)
    requires i < |packages|
  {
    var pkg := packages[i];
    match e
    case PackageNameRequired(index) => index == i && pkg.name == ""
    case InvalidPackageName(index, name) =>
      index == i && name == pkg.name && ('/' in name || '\\' in name || name == "." || name == "..")
    case DuplicatePackageName(index, name) => index == i && name == pkg.name && NamedBefore(packages, i)
    case SourceRequired(name) => name == pkg.name && pkg.source == ""
    case SelfDependency(name) => name == pkg.name && name in pkg.dependsOn
    case UnknownDependency(name, d) =>
      name == pkg.name && d in pkg.dependsOn && forall k :: 0 <= k < |packages| ==> packages[k].name != d
    case EmptyOptionalComponent(name) => name == pkg.name && "" in pkg.optionalComponents
    case DuplicateOptionalComponent(name, c) => name == pkg.name && Repeated(pkg.optionalComponents, c)
    case _ => false
  }

  /** The bundle's header gives cause for the error. */
  predicate HeaderFaulty(b: Bundle, e: ValidationError) {
    match e
    case APIVersionRequired => b.apiVersion == ""
    case UnsupportedAPIVersion(actual) => actual == b.apiVersion && actual != "" && actual != SUPPORTED_API_VERSION
    case MetadataNameRequired => b.name == ""
    case PackagesRequired => b.packages == []
    case _ => false
  }

  ghost predicate FaultyUpTo(packages: seq<Package>, n: nat, e: ValidationError)
    requires n <= |packages|
  {
    exists i :: 0 <= i < n && Faulty(packages, i, e)
  }

  lemma FaultyNext(packages: seq<Package>, i: nat, e: ValidationError)
    requires i < |packages|
    ensures FaultyUpTo(packages, i + 1, e) <==> FaultyUpTo(packages, i, e) || Faulty(packages, i, e)
  {
  }

  // The checks.

  method CheckHeader(b: Bundle) returns (errs: seq<ValidationError>)
    ensures forall e :: e in errs <==> HeaderFaulty(b, e)
  {
    errs := [];
    if b.apiVersion == "" {
      errs := errs + [APIVersionRequired];
    } else if b.apiVersion != SUPPORTED_API_VERSION {
      errs := errs + [UnsupportedAPIVersion(b.apiVersion)];
    }
    if b.name == "" {
      errs := errs + [MetadataNameRequired];
    }
    if |b.packages| == 0 {
      errs := errs + [PackagesRequired];
    }
  }

  method CheckDependencies(packages: seq<Package>, pkg: Package) returns (errs: seq<ValidationError>)
    ensures forall e :: e in errs <==>
              || (e == SelfDependency(pkg.name) && pkg.name in pkg.dependsOn)
              || (e.UnknownDependency? && e.package == pkg.name && e.dependency in pkg.dependsOn
                  && !ContainsPackage(packages, e.dependency))
  {
    errs := [];
    for j := 0 to |pkg.dependsOn|
      invariant forall e :: e in errs <==>
                  || (e == SelfDependency(pkg.name) && pkg.name in pkg.dependsOn[..j])
                  || (e.UnknownDependency? && e.package == pkg.name && e.dependency in pkg.dependsOn[..j]
                      && !ContainsPackage(packages, e.dependency))
    {
      var dep := pkg.dependsOn[j];
      assert pkg.dependsOn[..j + 1] == pkg.dependsOn[..j] + [dep];
      if dep == pkg.name {
        errs := errs + [SelfDependency(pkg.name)];
      }
      if !ContainsPackage(packages, dep) {
        errs := errs + [UnknownDependency(pkg.name, dep)];
      }
    }
    assert pkg.dependsOn[..|pkg.dependsOn|] == pkg.dependsOn;
  }

  lemma RepeatedNext(xs: seq<string>, i: nat, x: string)
    requires i < |xs|
    ensures Repeated(xs[..i + 1], x) <==> Repeated(xs[..i], x) || (xs[i] == x && x in xs[..i])
  {
    var more, init := xs[..i + 1], xs[..i];
    if Repeated(init, x) {
      var j, k :| 0 <= j < k < i && init[j] == x && init[k] == x;
      assert more[j] == x && more[k] == x;
    }
    if xs[i] == x && x in init {
      var j :| 0 <= j < i && init[j] == x;
      assert more[j] == x && more[i] == x;
    }
    if Repeated(more, x) {
      var j, k :| 0 <= j < k <= i && more[j] == x && more[k] == x;
      assert init[j] == x;
      assert k < i ==> init[k] == x;
    }
  }

  method CheckComponents(pkg: Package) returns (errs: seq<ValidationError>)
    ensures forall e :: e in errs <==>
              || (e == EmptyOptionalComponent(pkg.name) && "" in pkg.optionalComponents)
              || (e.DuplicateOptionalComponent? && e.package == pkg.name
                 && Repeated(pkg.optionalComponents, e.component))
  {
    errs := [];
    var components := pkg.optionalComponents;
    var componentNames: set<string> := {};
    for j := 0 to |components|
      invariant forall x :: x in componentNames <==> x in components[..j]
      invariant forall e :: e in errs <==>
                  || (e == EmptyOptionalComponent(pkg.name) && "" in components[..j])
                  || (e.DuplicateOptionalComponent? && e.package == pkg.name && Repeated(components[..j], e.component))
    {
      var comp := components[j];
      assert components[..j + 1] == components[..j] + [comp];
      forall x { RepeatedNext(components, j, x); }
      if comp == "" {
        errs := errs + [EmptyOptionalComponent(pkg.name)];
      }
      if comp in componentNames {
        errs := errs + [DuplicateOptionalComponent(pkg.name, comp)];
      }
      componentNames := componentNames + {comp};
    }
    assert components[..|components|] == components;
  }

  method CheckPackage(packages: seq<Package>, i: nat, packageNames: set<string>) returns (errs: seq<ValidationError>)
    requires i < |packages| && (packages[i].name in packageNames <==> NamedBefore(packages, i))
    ensures forall e :: e in errs <==> Faulty(packages, i, e)
  {
    var pkg := packages[i];
    errs := [];
    if pkg.name == "" {
      errs := errs + [PackageNameRequired(i)];
    }
    if !LegalName(pkg.name) {
      errs := errs + [InvalidPackageName(i, pkg.name)];
    }
    if pkg.name in packageNames {
      errs := errs + [DuplicatePackageName(i, pkg.name)];
    }
    if pkg.source == "" {
      errs := errs + [SourceRequired(pkg.name)];
    }
    var dependencies := CheckDependencies(packages, pkg);
    var components := CheckComponents(pkg);
    errs := errs + dependencies + components;
  }

  /** Exactly the errors that the header or some package gives cause for are reported. */
  method Validate(b: Bundle) returns (errs: seq<ValidationError>)
    ensures forall e :: e in errs <==> HeaderFaulty(b, e) || FaultyUpTo(b.packages, |b.packages|, e)
  {
    errs := CheckHeader(b);
    var packageNames: set<string> := {};
    for i := 0 to |b.packages|
      invariant packageNames == set k | 0 <= k < i :: b.packages[k].name
      invariant forall e :: e in errs <==> HeaderFaulty(b, e) || FaultyUpTo(b.packages, i, e)
    {
      var found := CheckPackage(b.packages, i, packageNames);
      forall e { FaultyNext(b.packages, i, e); }
      errs := errs + found;
      packageNames := packageNames + {b.packages[i].name};
    }
  }

  // What validation guarantees.

  ghost predicate DistinctNames(packages: seq<Package>) {
    forall i, j :: 0 <= i < j < |packages| ==> packages[i].name != packages[j].name
  }

  ghost predicate SoundDependency(packages: seq<Package>, pkg: Package, d: string) {
    d != pkg.name && ContainsPackage(packages, d)
  }

  ghost predicate SoundPackage(packages: seq<Package>, pkg: Package) {
    && pkg.name != "" && LegalName(pkg.name)
    && forall d :: d in pkg.dependsOn ==> SoundDependency(packages, pkg, d)
  }

  ghost predicate Acceptable(packages: seq<Package>) {
    && packages != [] && DistinctNames(packages)
    && forall i :: 0 <= i < |packages| ==> SoundPackage(packages, packages[i])
  }

  /** The errors that concern what the dependency graph is built from. */
  predicate OfGraph(e: ValidationError) {
    || e.PackagesRequired? || e.PackageNameRequired? || e.InvalidPackageName? || e.DuplicatePackageName?
    || e.SelfDependency? || e.UnknownDependency?
  }

  /** No error about packages, their names or their dependencies: the graph's input is acceptable, and conversely. */
  lemma AcceptedMeaning(b: Bundle)
    ensures Acceptable(b.packages) <==>
            forall e :: OfGraph(e) ==> !HeaderFaulty(b, e) && !FaultyUpTo(b.packages, |b.packages|, e)
  {
    var packages := b.packages;
    if Acceptable(packages) {
      forall e | OfGraph(e) ensures !HeaderFaulty(b, e) && !FaultyUpTo(packages, |packages|, e) {
        forall i | 0 <= i < |packages| ensures !Faulty(packages, i, e) {
          SoundNotFaulty(packages, i, e);
        }
      }
    }
    if forall e :: OfGraph(e) ==> !HeaderFaulty(b, e) && !FaultyUpTo(packages, |packages|, e) {
      assert !HeaderFaulty(b, PackagesRequired);
      forall j | 0 <= j < |packages| ensures SoundPackage(packages, packages[j]) && !NamedBefore(packages, j) {
        forall e | OfGraph(e) ensures !Faulty(packages, j, e) {
          assert !FaultyUpTo(packages, |packages|, e);
        }
        NotFaultySound(packages, j);
      }
      forall i, j | 0 <= i < j < |packages| ensures packages[i].name != packages[j].name {
        assert !NamedBefore(packages, j);
      }
    }
  }

  lemma SoundNotFaulty(packages: seq<Package>, i: nat, e: ValidationError)
    requires Acceptable(packages) && i < |packages| && OfGraph(e)
    ensures !Faulty(packages, i, e)
  {
    var pkg := packages[i];
    assert SoundPackage(packages, pkg);
    assert forall d :: d in pkg.dependsOn ==> SoundDependency(packages, pkg, d);
  }

  lemma NotFaultySound(packages: seq<Package>, i: nat)
    requires i < |packages| && forall e :: OfGraph(e) ==> !Faulty(packages, i, e)
    ensures SoundPackage(packages, packages[i]) && !NamedBefore(packages, i)
  {
    var pkg := packages[i];
    assert !Faulty(packages, i, PackageNameRequired(i)) && !Faulty(packages, i, InvalidPackageName(i, pkg.name));
    assert !Faulty(packages, i, DuplicatePackageName(i, pkg.name)) && !Faulty(packages, i, SelfDependency(pkg.name));
    forall d | d in pkg.dependsOn ensures SoundDependency(packages, pkg, d) {
      assert !Faulty(packages, i, UnknownDependency(pkg.name, d));
    }
  }

  /** For a validated bundle, graph construction can fail only on a cycle through at least two packages. */
  lemma ValidatedBundleCycles(packages: seq<Package>, p: seq<string>)
    requires Acceptable(packages)
    ensures ClosedGraph(DeclaredEdges(packages))
    ensures IsCycle(DeclaredEdges(packages), p) ==> |p| - 1 >= 2
  {
    DeclaredNames(packages);
    var g := DeclaredEdges(packages);
    forall a, b | Edge(g, a, b) ensures b in g && a != b {
      var pkg := Declared(packages)[a];
      assert pkg in packages && SoundPackage(packages, pkg);
      assert b in pkg.dependsOn;
    }
    if IsCycle(g, p) {
      assert Edge(g, p[0], p[1]);
      assert p[0] != p[1];
    }
  }

  /** Validation keeps every declared package: none is overwritten by a later one. */
  lemma {:induction false} ValidatedPackagesDeclared(packages: seq<Package>)
    requires DistinctNames(packages)
    ensures forall i :: 0 <= i < |packages| ==>
              packages[i].name in Declared(packages) && Declared(packages)[packages[i].name] == packages[i]
  {
    if packages != [] {
      ValidatedPackagesDeclared(packages[..|packages| - 1]);
    }
  }
}
