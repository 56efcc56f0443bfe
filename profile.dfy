/** `EValProf`: a lookup that prefers the document of the active profile. */
module Profile {
  import opened Entry
  import opened Safe
  import opened Text
  import opened Split
  import opened Env
  import opened Yaml
  import opened Val

  /** The key naming the active profile. */
  const ProfileKey := "entrys.profile"

  /** The failure raised for a blank profile. */
  const ProfileEmpty := "Attribute for key 'profile' is empty"

  /** `parsePath(path, profile)`: every occurrence of `application` is
      followed by the profile name, with no separator. */
  function ParsePath(path: string, profile: string): (r: string)
    ensures r == Join(Pieces(path, "application"), "application" + profile)
    ensures IndexOf(path, "application") == -1 ==> r == path
  {
    ReplacePieces(path, "application", "application" + profile);
    ReplaceAll(path, "application", "application" + profile)
  }

  /** The `try`/`catch` of the constructor lambda over the results it
      combines: the probe, the lookup in the profile's document (consulted
      only for a non-blank profile and a non-`null` path; `parsePath` on a
      `null` path throws a NullPointerException) and the base lookup. Every
      EntryException inside the `try` falls back to the base lookup, which
      sits in the `catch` block unguarded; other exceptions leave as they are. */
  function Select(probe: Result<string>, pathIsNull: bool, profiled: string -> Result<string>,
                  base: Result<string>): (o: Outcome<string>)
    ensures (probe.Err? && probe.error.Failure?) ==> o == AsOutcome(base)
    ensures (probe.Err? && probe.error.Unchecked?) ==> o == Thrown(probe.error)
    ensures probe.Ok? && IsBlank(probe.value) ==> o == AsOutcome(base)
    ensures probe.Ok? && !IsBlank(probe.value) && pathIsNull ==> o == NullPointer
    ensures probe.Ok? && !IsBlank(probe.value) && !pathIsNull ==>
      o == if profiled(probe.value).Err? && profiled(probe.value).error.Failure?
           then AsOutcome(base) else AsOutcome(profiled(probe.value))
  {
    match probe
    case Err(Failure(_)) => AsOutcome(base)
    case Err(e) => Thrown(e)
    case Ok(profile) =>
      if IsBlank(profile) then AsOutcome(base)
      else if pathIsNull then NullPointer
      else match profiled(profile)
        case Ok(v) => Value(v)
        case Err(Failure(_)) => AsOutcome(base)
        case Err(e) => Thrown(e)
  }

  /** The lookup of `key` in the document of `profile`: the file at
      `parsePath(path, profile)`. A path without `application`, or an empty
      profile name, leads back to the file at `path` itself. */
  function ProfileLookup(key: string, path: Option<string>, profile: string, fs: FileSystem, env: Environment): (r: Result<string>)
    ensures path.Some? && IndexOf(path.value, "application") == -1 ==> r == EValAt(key, path, fs, env)
    ensures path.Some? && profile == "" ==> r == EValAt(key, path, fs, env)
  {
    EValAt(key, Some(ParsePath(if path.Some? then path.value else "", profile)), fs, env)
  }

  /** `ProfileLookup` as the function of the profile name that the selection
      consults. */
  function InProfile(key: string, path: Option<string>, fs: FileSystem, env: Environment): string -> Result<string>
  {
    profile => ProfileLookup(key, path, profile, fs, env)
  }

  /** The constructor lambda of `EValProf`: the profile is probed in the file
      at `path`, the base lookup is in `content`. It never yields `null`, a
      checked failure can only be the base lookup's, and every result is the
      base lookup, the lookup in the profile's document, or the probe's
      unchecked exception. */
  function ProfileBody(key: string, content: Outcome<Mapping>, path: Option<string>,
                       fs: FileSystem, env: Environment): (o: Outcome<string>)
    ensures o.Value? || o.Thrown?
    ensures o.Thrown? && o.error.Failure? ==> o == AsOutcome(EVal(key, content, env))
    ensures var probe := EValAt(ProfileKey, path, fs, env);
      || o == AsOutcome(EVal(key, content, env))
      || (probe.Ok? && path.Some? && o == AsOutcome(EValAt(key, Some(ParsePath(path.value, probe.value)), fs, env)))
      || (probe.Err? && probe.error.Unchecked? && o == Thrown(probe.error))
  {
    var probe := EValAt(ProfileKey, path, fs, env);
    var profiled := InProfile(key, path, fs, env);
    var base := EVal(key, content, env);
    SelectSources(probe, path.None?, profiled, base);
    Select(probe, path.None?, profiled, base)
  }

  /** The selection over any probe, profile lookup and base lookup, once a
      `null` path has made the probe fail. */
  lemma SelectSources(probe: Result<string>, pathIsNull: bool, profiled: string -> Result<string>,
                      base: Result<string>)
    requires pathIsNull ==> probe.Err? && probe.error.Failure?
    ensures var o := Select(probe, pathIsNull, profiled, base);
      && (o.Value? || o.Thrown?)
      && (o.Thrown? && o.error.Failure? ==> o == AsOutcome(base))
      && (|| o == AsOutcome(base)
          || (probe.Ok? && !pathIsNull && o == AsOutcome(profiled(probe.value)))
          || (probe.Err? && probe.error.Unchecked? && o == Thrown(probe.error)))
  {
  }

  /** `new EValProf(key, content, path).value()`. No branch yields `null`,
      so the result is what the selected lookup gives; a checked failure can
      only come from the base lookup. */
  function EValProf(key: string, content: Outcome<Mapping>, path: Option<string>,
                    fs: FileSystem, env: Environment): (r: Result<string>)
    ensures path.None? ==> r == EVal(key, content, env)
    ensures r.Err? && r.error.Failure? ==> r == EVal(key, content, env)
  {
    ESafe(ProfileBody(key, content, path, fs, env), AttributeNull(key))
  }

  /** The null check around the selection never changes its result, since
      the only branch that can produce a NullPointerException needs a `null`
      path, for which the probe has already failed. */
  lemma SafeSelect(probe: Result<string>, pathIsNull: bool, profiled: string -> Result<string>,
                   base: Result<string>, message: string)
    requires pathIsNull ==> probe.Err? && probe.error.Failure?
    ensures var r := ESafe(Select(probe, pathIsNull, profiled, base), message);
      && (pathIsNull ==> r == base)
      && (r.Err? && r.error.Failure? ==> r == base)
      && (probe.Ok? && !IsBlank(probe.value) && !(profiled(probe.value).Err? && profiled(probe.value).error.Failure?)
          ==> r == profiled(probe.value))
  {
  }

  /** `new EValProf(key, path).value()`: the base content is the file at `path`. */
  function EValProfAt(key: string, path: Option<string>, fs: FileSystem, env: Environment): (r: Result<string>)
    ensures path.None? ==> r == Err(Failure(ReadFailure(key)))
  {
    EValProf(key, FileAt(fs, path), path, fs, env)
  }

  /** `new EValProf(key).value()`: the default path. */
  function EValProfDefault(key: string, fs: FileSystem, env: Environment): (r: Result<string>)
    ensures r.Err? && r.error.Failure? ==> r == EValDefault(key, fs, env)
  {
    EValProfAt(key, Some(DefaultPath), fs, env)
  }

  /** The base content is used whenever the profile cannot be used: the
      probe fails, the profile is blank, or the profile's own lookup fails. */
  lemma FallsBackToBase(key: string, content: Outcome<Mapping>, path: Option<string>, fs: FileSystem, env: Environment)
    requires var probe := EValAt(ProfileKey, path, fs, env);
      || (probe.Err? && probe.error.Failure?)
      || (probe.Ok? && IsBlank(probe.value))
      || (probe.Ok? && path.Some?
          && EValAt(key, Some(ParsePath(path.value, probe.value)), fs, env).Err?
          && EValAt(key, Some(ParsePath(path.value, probe.value)), fs, env).error.Failure?)
    ensures EValProf(key, content, path, fs, env) == EVal(key, content, env)
  {
  }

  /** With a non-blank profile whose document has the key, that document's
      value wins, whatever the base content says. */
  lemma ProfileSelected(key: string, content: Outcome<Mapping>, path: string, fs: FileSystem, env: Environment)
    requires var probe := EValAt(ProfileKey, Some(path), fs, env);
      probe.Ok? && !IsBlank(probe.value) && EValAt(key, Some(ParsePath(path, probe.value)), fs, env).Ok?
    ensures var probe := EValAt(ProfileKey, Some(path), fs, env);
      EValProf(key, content, Some(path), fs, env) == EValAt(key, Some(ParsePath(path, probe.value)), fs, env)
  {
  }

  /** Every answer comes from one of three places: the base lookup, the
      profile document's lookup, or an unchecked error of the probe. */
  lemma ThreeSources(key: string, content: Outcome<Mapping>, path: Option<string>, fs: FileSystem, env: Environment)
    ensures var r, probe := EValProf(key, content, path, fs, env), EValAt(ProfileKey, path, fs, env);
      || r == EVal(key, content, env)
      || (probe.Ok? && path.Some? && r == EValAt(key, Some(ParsePath(path.value, probe.value)), fs, env))
      || (probe.Err? && probe.error.Unchecked? && r == probe)
  {
  }

  /** A failing base content with a `null` path fails as the base lookup does. */
  lemma NullPathExample(key: string, fs: FileSystem, env: Environment)
    requires key == ProfileKey
    ensures EValProf(key, Thrown(Failure(EmptyEntry)), None, fs, env) == Err(Failure(ReadFailure(key)))
  {
  }

  /** Replacing the only occurrence of `application`. */
  lemma ParseSingle(pre: string, post: string, profile: string)
    requires forall k :: 0 <= k < |pre| ==> !MatchAt(pre + "application" + post, "application", k)
    requires forall k :: 0 <= k <= |post| - 11 ==> !MatchAt(post, "application", k)
    ensures ParsePath(pre + "application" + post, profile) == pre + ("application" + profile) + post
  {
    ReplaceFirst(pre, "application", post, "application" + profile);
    ReplaceAbsent(post, "application", "application" + profile);
  }

  /** A path without `application` is left as it is. */
  lemma ParseAbsent(path: string, profile: string)
    requires forall k :: 0 <= k <= |path| - 11 ==> !MatchAt(path, "application", k)
    ensures ParsePath(path, profile) == path
  {
    ReplaceAbsent(path, "application", "application" + profile);
  }

  /** The only occurrence, located by its index. */
  lemma ParseAt(path: string, i: nat, profile: string)
    requires MatchAt(path, "application", i)
    requires forall k :: 0 <= k < i ==> !MatchAt(path, "application", k)
    requires forall k :: i + 11 <= k ==> !MatchAt(path, "application", k)
    ensures ParsePath(path, profile) == path[..i] + ("application" + profile) + path[i + 11..]
  {
    var pre, post := path[..i], path[i + 11..];
    assert path == pre + "application" + post;
    forall k | 0 <= k <= |post| - 11 ensures !MatchAt(post, "application", k) {
      if MatchAt(post, "application", k) {
        MatchInSuffix(path, "application", i + 11, k);
      }
    }
    ParseSingle(pre, post, profile);
  }

  /** Every `a` of `pre` is followed, still inside `pre`, by something
      other than `p`, so no `application` can start inside `pre`. */
  predicate NoWordStart(pre: string)
  {
    forall k :: 0 <= k < |pre| && pre[k] == 'a' ==> k + 1 < |pre| && pre[k + 1] != 'p'
  }

  /** A path with one `application`, preceded by text where none can
      start and followed by a tail too short to hold another. */
  lemma ParseOnly(pre: string, post: string, profile: string)
    requires NoWordStart(pre) && |post| < 11
    ensures ParsePath(pre + "application" + post, profile) == pre + ("application" + profile) + post
  {
    var path := pre + "application" + post;
    forall k | 0 <= k < |pre| ensures !MatchAt(path, "application", k) {
      var w := path[k..k + 11];
      assert w[0] == pre[k] && w[1] == path[k + 1];
      if k + 1 < |pre| {
        assert path[k + 1] == pre[k + 1];
      } else {
        assert path[k + 1] == 'a';
      }
    }
    ParseSingle(pre, post, profile);
  }

  /** `a/application.yaml` with profile `dev` is `a/applicationdev.yaml`:
      the profile name follows `application` directly. */
  lemma ParseExample(profile: string)
    ensures ParsePath("a/" + "application" + ".yaml", profile) == "a/" + ("application" + profile) + ".yaml"
  {
    ParseOnly("a/", ".yaml", profile);
  }

  /** The default path with a profile. */
  lemma ParseDefault(profile: string)
    ensures ParsePath(DefaultPath, profile) == "src/main/resources/" + ("application" + profile) + ".yaml"
  {
    var pre := "src/main/resources/";
    assert DefaultPath == pre + "application" + ".yaml";
    assert NoWordStart(pre) by {
      forall k | 0 <= k < |pre| && pre[k] == 'a' ensures k + 1 < |pre| && pre[k + 1] != 'p' {
        assert k == 5;
      }
    }
    ParseOnly(pre, ".yaml", profile);
  }

  /** Every occurrence is rewritten, not only the first. */
  lemma ParseTwice(tail: string, profile: string)
    requires tail == "/" + "application" + ".yaml"
    ensures ParsePath("application" + tail, profile)
         == ("application" + profile) + ("/" + ("application" + profile) + ".yaml")
  {
    assert [] + "application" + tail == "application" + tail;
    ReplaceFirst([], "application", tail, "application" + profile);
    ParseOnly("/", ".yaml", profile);
    assert [] + ("application" + profile) == "application" + profile;
  }

  // ---------------------------------------------------------------------
  // The blank profile, as intended
  // ---------------------------------------------------------------------

  /** The document of the blank-profile scenario: `entrys: {profile: ""}`. */
  function BlankProfileDoc(): Mapping
  {
    map["entrys" := Map(map["profile" := Scalar("")])]
  }

  /** As written, a blank profile is absorbed by the catch block: the lookup
      of `entrys.profile` in content whose profile is `""`, with a `null`
      path, succeeds with `""`. */
  lemma BlankProfileAsWritten(key: string, fs: FileSystem, env: Environment)
    requires key == ProfileKey
    ensures EValProf(key, Value(BlankProfileDoc()), None, fs, env) == Ok("")
  {
    InnerProfile(key, env);
  }

  /** `entrys.profile` over the blank-profile document reads the blank profile. */
  lemma InnerProfile(key: string, env: Environment)
    requires key == ProfileKey
    ensures EVal(key, Value(BlankProfileDoc()), env) == Ok("")
  {
    var segments := ["entrys", "profile"];
    assert Join(segments, ".") == key;
    assert segments[..1] == ["entrys"];
    var p := map["profile" := Scalar("")];
    assert ChildMapping(BlankProfileDoc(), "entrys") == Some(p);
    LookupScalar(key, segments, BlankProfileDoc(), p, "", env);
  }

  /** The profile is probed in the entry's own content, and a blank profile
      fails the entry instead of falling back. */
  function EValProfIntended(key: string, content: Outcome<Mapping>, path: Option<string>,
                            fs: FileSystem, env: Environment): (r: Result<string>)
  {
    var probe := EVal(ProfileKey, content, env);
    if probe.Ok? && IsBlank(probe.value) then Err(Failure(ProfileEmpty))
    else ESafe(Select(probe, path.None?, InProfile(key, path, fs, env), EVal(key, content, env)), AttributeNull(key))
  }

  /** Intended: a blank profile is an error. */
  lemma IntendedBlankFails(key: string, content: Outcome<Mapping>, path: Option<string>, fs: FileSystem, env: Environment)
    requires EVal(ProfileKey, content, env).Ok? && IsBlank(EVal(ProfileKey, content, env).value)
    ensures EValProfIntended(key, content, path, fs, env) == Err(Failure(ProfileEmpty))
  {
  }

  /** Intended, on the blank-profile scenario: the entry fails. */
  lemma BlankProfileIntended(key: string, fs: FileSystem, env: Environment)
    requires key == ProfileKey
    ensures EValProfIntended(key, Value(BlankProfileDoc()), None, fs, env) == Err(Failure(ProfileEmpty))
  {
    InnerProfile(key, env);
  }

  /** Where the content is the file at `path` and the profile is not blank,
      the intended entry agrees with the written one. */
  lemma IntendedAgrees(key: string, path: Option<string>, fs: FileSystem, env: Environment)
    requires var probe := EValAt(ProfileKey, path, fs, env); !(probe.Ok? && IsBlank(probe.value))
    ensures EValProfIntended(key, FileAt(fs, path), path, fs, env) == EValProf(key, FileAt(fs, path), path, fs, env)
  {
  }
}
