/**
 The public client environment of a build (docker/support/scripts/client-build-environment.ts):
 which variables a build embeds, and the environment its subprocesses get.  A variable may be
 present without a value; key order is not modelled.
 */
module ClientEnvironment {
  import opened Wrappers

  type Name = string

  type Environment = map<Name, Option<string>>

  type Client = map<Name, string>

  datatype ProfileError = MissingCommitHash | UnknownProfile(profile: string)

  const PREFIX := "DSH_CLIENT_"
  const SELECTOR := "DSH_BUILD_CLIENT_PROFILE"
  const COMMIT_HASH := "DSH_CLIENT_COMMIT_HASH"
  const OFFICIAL: Client := map["DSH_CLIENT_BUILD_PROFILE" := "official", "DSH_CLIENT_TITLE" := "DeepSeek Harness"]

  predicate Public(name: Name) {
    |PREFIX| <= |name| && name[..|PREFIX|] == PREFIX
  }

  function Lookup(environment: Environment, name: Name): Option<string> {
    if name in environment then environment[name] else None
  }

  /** The public variables that have a value. */
  function ClientBuildEnvironment(environment: Environment): Client {
    map name | name in environment && Public(name) && environment[name].Some? :: environment[name].value
  }

  function ResolveClientBuildEnvironment(
      environment: Environment, profile: Option<string>): Result<Client, ProfileError> {
    if profile.None? then Success(ClientBuildEnvironment(environment))
    else if profile.value == "official" then
      var commitHash := Lookup(environment, COMMIT_HASH);
      if commitHash.None? then Failure(MissingCommitHash)
      else Success(map[COMMIT_HASH := commitHash.value] + OFFICIAL)
    else Failure(UnknownProfile(profile.value))
  }

  /** The profile a process selects for itself. */
  function Resolved(environment: Environment): Result<Client, ProfileError> {
    ResolveClientBuildEnvironment(environment, Lookup(environment, SELECTOR))
  }

  predicate Inherited(name: Name) {
    name != SELECTOR && !Public(name)
  }

  /** The variables a child takes over, leaving out the names given. */
  function Inheritance(environment: Environment, except: set<Name>): Environment {
    map name | name in environment && name !in except && Inherited(name) :: environment[name]
  }

  function Child(environment: Environment, client: Client): Environment {
    Inheritance(environment, {}) + map name | name in client :: Some(client[name])
  }

  lemma InheritNext(environment: Environment, pending: set<Name>, name: Name)
    requires name in pending && pending <= environment.Keys
    ensures Inheritance(environment, pending - {name})
         == if Inherited(name) then Inheritance(environment, pending)[name := environment[name]]
            else Inheritance(environment, pending)
  {
    var now := Inheritance(environment, pending - {name});
    var before := Inheritance(environment, pending);
    var expected := if Inherited(name) then before[name := environment[name]] else before;
    hide Inherited;
    assert now.Keys == expected.Keys;
    assert forall n :: n in now ==> now[n] == expected[n];
  }

  method ClientBuildProcessEnvironment(environment: Environment, client: Client) returns (child: Environment)
    ensures child == Child(environment, client)
  {
    hide Inheritance, Public;
    child := map[];
    var pending := environment.Keys;
    assert Inheritance(environment, pending) == map[] by {
      NothingInherited(environment);
    }
    while pending != {}
      invariant pending <= environment.Keys && child == Inheritance(environment, pending)
      decreases |pending|
    {
      var name :| name in pending;
      InheritNext(environment, pending, name);
      pending := pending - {name};
      if !(name == SELECTOR || Public(name)) {
        child := child[name := environment[name]];
      }
    }
    child := child + map name | name in client :: Some(client[name]);
  }

  lemma NothingInherited(environment: Environment)
    ensures Inheritance(environment, environment.Keys) == map[]
  {
  }

  // ---------------------------------------------------------------- the child sees what was selected

  ghost predicate OnlyPublic(client: Client) {
    forall name :: name in client ==> Public(name)
  }

  lemma SelectorIsPrivate()
    ensures !Public(SELECTOR)
  {
    assert SELECTOR[..|PREFIX|][4] != PREFIX[4];
  }

  /**
   The child's public variables are the selected ones, no more and no fewer, exactly when only public names were
   selected.
   */
  lemma ChildProjectsIff(environment: Environment, client: Client)
    ensures ClientBuildEnvironment(Child(environment, client)) == client <==> OnlyPublic(client)
  {
    var child := Child(environment, client);
    var seen := ClientBuildEnvironment(child);
    assert forall name :: name in seen ==> Public(name);
    if OnlyPublic(client) {
      forall name ensures name in seen <==> name in client {
      }
      assert forall name :: name in client ==> seen[name] == client[name];
    }
  }

  /**
   Name by name: of the child's variables the public ones are the selected ones, the profile
   selector is gone, and every other variable is what the parent has.
   */
  lemma ChildNameByName(environment: Environment, client: Client, name: Name)
    requires forall selected :: selected in client ==> "DSH_CLIENT_" <= selected
    ensures var child := Child(environment, client);
            if "DSH_CLIENT_" <= name
            then (name in child <==> name in client) && (name in child ==> child[name] == Some(client[name]))
            else if name == "DSH_BUILD_CLIENT_PROFILE" then name !in child
            else (name in child <==> name in environment) && (name in child ==> child[name] == environment[name])
  {
    SelectorIsPrivate();
    assert Public(name) <==> "DSH_CLIENT_" <= name;
  }

  /** The official profile is three variables, of which the environment gives the commit; there is no other profile. */
  lemma ProfilesAre(environment: Environment, profile: string)
    ensures var r := ResolveClientBuildEnvironment(environment, Some(profile));
            r.Success? <==>
              profile == "official" && "DSH_CLIENT_COMMIT_HASH" in environment
              && environment["DSH_CLIENT_COMMIT_HASH"].Some?
    ensures var r := ResolveClientBuildEnvironment(environment, Some(profile));
            r.Success? ==>
              && r.value.Keys == {"DSH_CLIENT_COMMIT_HASH", "DSH_CLIENT_BUILD_PROFILE", "DSH_CLIENT_TITLE"}
              && Some(r.value["DSH_CLIENT_COMMIT_HASH"]) == environment["DSH_CLIENT_COMMIT_HASH"]
              && r.value["DSH_CLIENT_BUILD_PROFILE"] == "official"
              && r.value["DSH_CLIENT_TITLE"] == "DeepSeek Harness"
  {
    assert "DSH_CLIENT_COMMIT_HASH"[11] == 'C' && "DSH_CLIENT_BUILD_PROFILE"[11] == 'B';
    assert "DSH_CLIENT_TITLE"[11] == 'T';
  }

  /** What a process resolves holds only public names, whatever profile it selects. */
  lemma ResolvedIsPublic(environment: Environment, profile: Option<string>)
    ensures var r := ResolveClientBuildEnvironment(environment, profile); r.Success? ==> OnlyPublic(r.value)
  {
    assert Public(COMMIT_HASH) && Public("DSH_CLIENT_BUILD_PROFILE") && Public("DSH_CLIENT_TITLE");
  }

  /** So a build started in the child resolves the same environment again, whichever profile the parent selected. */
  lemma ResolutionSurvivesSpawning(environment: Environment, profile: Option<string>)
    ensures var r := ResolveClientBuildEnvironment(environment, profile);
            r.Success? ==> Resolved(Child(environment, r.value)) == r
  {
    var r := ResolveClientBuildEnvironment(environment, profile);
    if r.Success? {
      ResolvedIsPublic(environment, profile);
      SelectorIsPrivate();
      ChildProjectsIff(environment, r.value);
      assert SELECTOR !in Child(environment, r.value);
    }
  }
}
