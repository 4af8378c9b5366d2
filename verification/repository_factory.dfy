/** Resolution of a short name such as `user` into the repository class to
    instantiate and the model class handed to its constructor.

    Configuration values are explicit: the models namespace, the repositories
    namespace and the optional repository suffix. The framework's `studly_case`
    normaliser is a parameter `studly`, since its definition is not part of this
    model. An unset namespace reads as `null`, which PHP concatenates as the
    empty string, so it is represented by "". */
module RepositoryFactory {
  import opened Wrappers
  import opened Strings

  /** PHP's namespace separator, a single backslash. */
  const NamespaceSeparator: char := '\\'

  /** Suffix used when the configuration gives none. */
  const DefaultRepositoryEnds: string := "Repository"

  datatype Config = Config(
    modelsNamespace: string,
    repositoriesNamespace: string,
    repositoryEnds: Option<string>)

  /** The factory after construction: the suffix has been read once. */
  datatype Factory = Factory(
    repoEnds: string,
    modelsNamespace: string,
    repositoriesNamespace: string)

  /** What `get` instantiates: the repository class, and the model class passed
      to its constructor (`None` stands for PHP `null`). */
  datatype Resolution = Resolution(repositoryClass: string, modelName: Option<string>)

  function NewFactory(cfg: Config): (f: Factory)
    ensures cfg.repositoryEnds.None? ==> f.repoEnds == DefaultRepositoryEnds
    ensures cfg.repositoryEnds.Some? ==> f.repoEnds == cfg.repositoryEnds.value
    ensures f.modelsNamespace == cfg.modelsNamespace
    ensures f.repositoriesNamespace == cfg.repositoriesNamespace
  {
    var ends := match cfg.repositoryEnds
      case None => DefaultRepositoryEnds
      case Some(e) => e;
    Factory(ends, cfg.modelsNamespace, cfg.repositoriesNamespace)
  }

  /** A name that already carries a namespace. */
  predicate IsQualified(name: string) {
    NamespaceSeparator in name
  }

  /** Appends the suffix unless the name already ends with it. The result is
      the shortest extension of `name` that ends with the suffix, of the two
      candidates `name` and `name + suffix`. */
  function SetRepoName(f: Factory, name: string): (r: string)
    ensures EndsWith(r, f.repoEnds)
    ensures StartsWith(r, name)
    ensures |r| <= |name| + |f.repoEnds|
    ensures r == name <==> EndsWith(name, f.repoEnds)
  {
    if !EndsWith(name, f.repoEnds) then
      ConcatEndsWith(name, f.repoEnds);
      name + f.repoEnds
    else
      assert name[..|name|] == name;
      name
  }

  /** The model class for a name, or `None` when the name is qualified or is
      already a repository name; in that case the repository must know its own
      model. */
  function GetModel(f: Factory, name: string): (r: Option<string>)
    ensures r.None? <==> IsQualified(name) || EndsWith(name, f.repoEnds)
    ensures r.Some? ==> StartsWith(r.value, f.modelsNamespace)
    ensures r.Some? ==> r.value[|f.modelsNamespace|..] == name
  {
    if IsQualified(name) || EndsWith(name, f.repoEnds) then
      None
    else
      assert (f.modelsNamespace + name)[..|f.modelsNamespace|] == f.modelsNamespace;
      Some(f.modelsNamespace + name)
  }

  /** The repository class for a name: a qualified name is only suffixed, an
      unqualified one is also placed in the repositories namespace. */
  function GetRepository(f: Factory, name: string): (r: string)
    ensures EndsWith(r, f.repoEnds)
    ensures IsQualified(name) ==> r == SetRepoName(f, name)
    ensures !IsQualified(name) ==> StartsWith(r, f.repositoriesNamespace)
    ensures !IsQualified(name) ==> r[|f.repositoriesNamespace|..] == SetRepoName(f, name)
  {
    if IsQualified(name) then
      SetRepoName(f, name)
    else
      var s := SetRepoName(f, name);
      var r := f.repositoriesNamespace + s;
      assert r[|f.repositoriesNamespace|..] == s;
      assert r[..|f.repositoriesNamespace|] == f.repositoriesNamespace;
      assert r[|r| - |f.repoEnds|..] == s[|s| - |f.repoEnds|..];
      r
  }

  /** `get`: normalise once, then resolve the repository and the model from the
      same normalised name. Whenever a model is resolved, it and the repository
      share that name: `<models ns><N>` and `<repositories ns><N><suffix>`. */
  function Get(f: Factory, studly: string -> string, name: string): (r: Resolution)
    ensures r.repositoryClass == GetRepository(f, studly(name))
    ensures r.modelName == GetModel(f, studly(name))
    ensures EndsWith(r.repositoryClass, f.repoEnds)
    ensures r.modelName.Some? ==>
      && r.modelName.value == f.modelsNamespace + studly(name)
      && r.repositoryClass == f.repositoriesNamespace + studly(name) + f.repoEnds
  {
    var n := studly(name);
    Resolution(GetRepository(f, n), GetModel(f, n))
  }

  /** `__get`: property access on the factory is the same as calling `get`. */
  function MagicGet(f: Factory, studly: string -> string, name: string): (r: Resolution)
    ensures r == Get(f, studly, name)
    ensures EndsWith(r.repositoryClass, f.repoEnds)
  {
    Get(f, studly, name)
  }

  /** Suffixing twice is suffixing once. */
  lemma SetRepoNameIdempotent(f: Factory, name: string)
    ensures SetRepoName(f, SetRepoName(f, name)) == SetRepoName(f, name)
  {
  }

  /** For a name without the suffix, stripping the suffix from the repository
      name recovers the name. */
  lemma {:induction false} SetRepoNameStrips(f: Factory, name: string)
    requires !EndsWith(name, f.repoEnds)
    ensures EndsWith(SetRepoName(f, name), f.repoEnds)
    ensures StripSuffix(SetRepoName(f, name), f.repoEnds) == name
  {
    StripConcat(name, f.repoEnds);
  }

  /** `Foo` and `FooRepository` name the same repository class, but only the
      first yields a model class; the second leaves the repository to supply
      its own model. */
  lemma {:induction false} SuffixedAliasSharesRepository(f: Factory, name: string)
    requires !IsQualified(name) && NamespaceSeparator !in f.repoEnds
    requires !EndsWith(name, f.repoEnds)
    ensures GetRepository(f, name + f.repoEnds) == GetRepository(f, name)
    ensures GetModel(f, name) == Some(f.modelsNamespace + name)
    ensures GetModel(f, name + f.repoEnds) == None
  {
    ConcatContains(name, f.repoEnds, NamespaceSeparator);
    ConcatEndsWith(name, f.repoEnds);
  }

  /** With no configured suffix, an unqualified `User` resolves to
      `<repositories ns>UserRepository` and `<models ns>User`. */
  lemma {:induction false} DefaultSuffixResolution(cfg: Config, studly: string -> string, name: string)
    requires cfg.repositoryEnds.None?
    requires !IsQualified(studly(name)) && !EndsWith(studly(name), "Repository")
    ensures Get(NewFactory(cfg), studly, name)
      == Resolution(cfg.repositoriesNamespace + studly(name) + "Repository",
                    Some(cfg.modelsNamespace + studly(name)))
  {
    var f := NewFactory(cfg);
    assert f.repoEnds == "Repository";
    assert GetModel(f, studly(name)).Some?;
  }

  /** Two names that normalise alike resolve alike: `get` looks at its argument
      only through `studly`. */
  lemma GetFactorsThroughStudly(f: Factory, studly: string -> string, a: string, b: string)
    requires studly(a) == studly(b)
    ensures Get(f, studly, a) == Get(f, studly, b)
  {
  }
}
