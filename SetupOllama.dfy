/** The model-provisioning script (scripts/setup-ollama.js): which models
    the environment asks for, which of them the server lacks, and the pull
    of each missing one in turn. */
module SetupOllama {
  import opened Strings
  import opened Optional
  import opened Seqs

  /** The three environment variables the script reads (None: unset). */
  datatype Env = Env(ollamaModels: Option<string>, embeddingModel: Option<string>, llmModel: Option<string>)

  /** A variable is truthy when it is set to a non-empty string. */
  predicate IsSet(v: Option<string>) {
    v.Some? && v.value != ""
  }

  const DefaultModels: seq<string> := ["nomic-embed-text", "mistral"]

  function TrimAll(pieces: seq<string>): seq<string>
  {
    Map(pieces, Trim)
  }

  predicate NotEmpty(x: string) {
    x != ""
  }

  /** `.filter(Boolean)` on strings: the non-empty ones, in order. */
  function NonEmpty(xs: seq<string>): (r: seq<string>)
    ensures |r| <= |xs|
    ensures forall x :: x in r <==> x in xs && x != ""
  {
    FilterMembersAll(xs, NotEmpty);
    Filter(xs, NotEmpty)
  }

  lemma NonEmptyAppend(a: seq<string>, b: seq<string>)
    ensures NonEmpty(a + b) == NonEmpty(a) + NonEmpty(b)
  {
    FilterAppend(a, b, NotEmpty);
  }

  /** `OLLAMA_MODELS.split(",").map((m) => m.trim()).filter(Boolean)`. */
  function ModelList(s: string): seq<string>
  {
    NonEmpty(TrimAll(Split(s, ',')))
  }

  /** Trimming a string without the separator leaves it without it. */
  lemma TrimKeepsOut(p: string, c: char)
    requires c !in p
    ensures c !in Trim(p)
  {
  }

  /** Every listed model is non-empty, holds no comma and is trimmed. */
  lemma ModelListClean(s: string)
    ensures forall m :: m in ModelList(s) ==> m != "" && ',' !in m && Trim(m) == m
  {
    var pieces := Split(s, ',');
    var trimmed := TrimAll(pieces);
    forall m | m in trimmed
      ensures ',' !in m && Trim(m) == m
    {
      var k :| 0 <= k < |pieces| && trimmed[k] == m;
      TrimKeepsOut(pieces[k], ',');
      TrimIdempotent(pieces[k]);
    }
  }

  /** Order and duplicates are kept: the list for `a,b` is the list for
      `a` followed by the list for `b`. */
  lemma ModelListAppend(a: string, b: string)
    requires ',' !in a
    ensures ModelList(a + [','] + b) == ModelList(a) + ModelList(b)
  {
    var pa, pb := Split(a, ','), Split(b, ',');
    SplitAppend(a, ',', b);
    MapAppend(pa, pb, Trim);
    NonEmptyAppend(TrimAll(pa), TrimAll(pb));
  }

  /** A single entry yields its trimmed text, or nothing when blank. */
  lemma ModelListSingle(s: string)
    requires ',' !in s
    ensures ModelList(s) == if Trim(s) == "" then [] else [Trim(s)]
  {
    SplitNoSeparator(s, ',');
    assert TrimAll([s]) == [Trim(s)];
    assert [Trim(s)][..0] == [];
  }

  lemma {:induction false} SplitNoSeparator(s: string, sep: char)
    requires sep !in s
    ensures Split(s, sep) == [s]
    decreases |s|
  {
    if s != [] {
      SplitNoSeparator(s[1..], sep);
      assert s == [s[0]] + s[1..];
    }
  }

  /** `[...new Set(xs)]`: each distinct element once, at the place of its
      first occurrence. */
  function Dedup(xs: seq<string>): (r: seq<string>)
    ensures forall x :: x in r <==> x in xs
    ensures forall i, j :: 0 <= i < j < |r| ==> r[i] != r[j]
  {
    if xs == [] then []
    else
      var d := Dedup(xs[..|xs| - 1]);
      if xs[|xs| - 1] in d then d else d + [xs[|xs| - 1]]
  }

  /** A repeated element leaves the result as it was, and a new one goes
      to the end. With `Dedup([]) == []` this fixes the result: the first
      occurrences, in the order they occur. */
  lemma DedupSnoc(xs: seq<string>, x: string)
    ensures Dedup(xs + [x]) == if x in xs then Dedup(xs) else Dedup(xs) + [x]
  {
    var ys := xs + [x];
    assert ys[..|ys| - 1] == xs && ys[|ys| - 1] == x;
  }

  /** `getModelsFromEnv`. */
  method GetModelsFromEnv(env: Env) returns (models: seq<string>)
    ensures IsSet(env.ollamaModels) ==> models == ModelList(env.ollamaModels.value)
    ensures !IsSet(env.ollamaModels) && !IsSet(env.embeddingModel) && !IsSet(env.llmModel)
            ==> models == DefaultModels
    ensures !IsSet(env.ollamaModels) && IsSet(env.embeddingModel) && !IsSet(env.llmModel)
            ==> models == [env.embeddingModel.value]
    ensures !IsSet(env.ollamaModels) && !IsSet(env.embeddingModel) && IsSet(env.llmModel)
            ==> models == [env.llmModel.value]
    ensures !IsSet(env.ollamaModels) && IsSet(env.embeddingModel) && IsSet(env.llmModel)
            ==> models == if env.embeddingModel.value == env.llmModel.value
                          then [env.embeddingModel.value]
                          else [env.embeddingModel.value, env.llmModel.value]
    ensures !IsSet(env.ollamaModels) ==> |models| >= 1
  {
    if IsSet(env.ollamaModels) {
      return ModelList(env.ollamaModels.value);
    }

    var pushed: seq<string> := [];
    if IsSet(env.embeddingModel) {
      pushed := pushed + [env.embeddingModel.value];
    }
    if IsSet(env.llmModel) {
      pushed := pushed + [env.llmModel.value];
    }

    if |pushed| > 0 {
      models := Dedup(pushed);
      var first := pushed[0];
      assert [first][..0] == [];
      assert Dedup([first]) == [first];
      if |pushed| == 2 {
        assert pushed[..1] == [first];
        assert models == if first == pushed[1] then [first] else [first, pushed[1]];
      } else {
        assert pushed == [first];
      }
    } else {
      models := DefaultModels;
    }
  }

  /** `name.split(":")[0]`: the name before its first colon. */
  function BaseName(name: string): (base: string)
    ensures StartsWith(name, base) && ':' !in base
    ensures |base| < |name| ==> name[|base|] == ':'
  {
    SplitHead(name, ':');
    Split(name, ':')[0]
  }

  /** `data.models?.map((m) => m.name.split(":")[0]) || []`. */
  function ExistingNames(tagged: Option<seq<string>>): (names: seq<string>)
    ensures tagged.None? ==> names == []
    ensures tagged.Some? ==>
              && |names| == |tagged.value|
              && forall i :: 0 <= i < |names| ==> names[i] == BaseName(tagged.value[i])
  {
    match tagged
    case None => []
    case Some(names) => seq(|names|, i requires 0 <= i < |names| => BaseName(names[i]))
  }

  /** The models whose name before ":" is not among the existing names. */
  function ModelsToInstall(models: seq<string>, existing: seq<string>): (install: seq<string>)
    ensures |install| <= |models|
    ensures forall m :: m in install <==> m in models && BaseName(m) !in existing
  {
    FilterMembersAll(models, (m: string) => BaseName(m) !in existing);
    Filter(models, (m: string) => BaseName(m) !in existing)
  }

  /** The install list keeps the order of MODELS. */
  lemma ModelsToInstallAppend(a: seq<string>, b: seq<string>, existing: seq<string>)
    ensures ModelsToInstall(a + b, existing) == ModelsToInstall(a, existing) + ModelsToInstall(b, existing)
  {
    FilterAppend(a, b, (m: string) => BaseName(m) !in existing);
  }

  /** Only names before ":" are compared: a model is taken as present
      when the server has any model of that name, whatever its tag. */
  lemma SameBaseNotInstalled(models: seq<string>, tagged: seq<string>, m: string, t: string)
    requires t in tagged && BaseName(t) == BaseName(m)
    ensures m !in ModelsToInstall(models, ExistingNames(Some(tagged)))
  {
    var k :| 0 <= k < |tagged| && tagged[k] == t;
    assert ExistingNames(Some(tagged))[k] == BaseName(m);
  }

  /** The server's answer to `GET /api/tags`: unreachable (the request
      throws, is not ok, or its body cannot be read), or the listed model
      names (None when the body has no `models`). */
  datatype TagsReply = Unreachable | Tags(tagged: Option<seq<string>>)

  /** `setupOllama` run to the end of the process: the exit code and the
      models whose pull was started, in order. `pullReturns(m)` says
      whether `pullModel(m)` returns without throwing, that is whether the
      request and the reading of its stream raise no error. The server's
      status code and any error line in the stream play no part: a pull the
      server refuses still returns. A pull that throws exits the process
      at once. */
  method RunSetup(models: seq<string>, reply: TagsReply, pullReturns: string -> bool)
    returns (exitCode: int, pulls: seq<string>)
    ensures reply.Unreachable? ==> exitCode == 1 && pulls == []
    ensures reply.Tags? ==>
      var install := ModelsToInstall(models, ExistingNames(reply.tagged));
      && |pulls| <= |install|
      && pulls == install[..|pulls|]
      && (forall i :: 0 <= i < |pulls| - 1 ==> pullReturns(pulls[i]))
      && (exitCode == 0 <==> forall m :: m in install ==> pullReturns(m))
      && (exitCode == 0 ==> pulls == install)
      && (exitCode != 0 ==> exitCode == 1 && pulls != [] && !pullReturns(pulls[|pulls| - 1]))
  {
    if reply.Unreachable? {
      return 1, [];
    }
    var existing := ExistingNames(reply.tagged);
    var install := ModelsToInstall(models, existing);
    if |install| == 0 {
      return 0, [];
    }

    pulls := [];
    for i := 0 to |install|
      invariant pulls == install[..i]
      invariant forall k :: 0 <= k < i ==> pullReturns(install[k])
    {
      pulls := pulls + [install[i]];
      if !pullReturns(install[i]) {
        return 1, pulls;
      }
    }
    assert install[..|install|] == install;
    return 0, pulls;
  }
}
