/** The model selector, `get_working_model`: from the catalogue the provider
    lists, keep the models that can generate content and pick one by a fixed
    order of preference, falling back to a hard-coded name. */
module ModelSelector {
  import opened Strings

  datatype Option<T> = None | Some(value: T)

  /** One entry of the provider's model listing: its name and the names of
      the generation methods it supports. */
  datatype ModelInfo = ModelInfo(name: string, supportedMethods: set<string>)

  /** The outcome of listing the catalogue: the models in listing order, or
      an exception raised while listing them. */
  datatype Listing = Listed(models: seq<ModelInfo>) | ListingFailed

  const GenerateContent := "generateContent"

  /** The name returned when no listed model qualifies or listing fails. */
  const DefaultModel := "models/gemini-1.5-flash"

  /** A model qualifies only when it supports `generateContent`. */
  predicate IsCandidate(m: ModelInfo)
  {
    GenerateContent in m.supportedMethods
  }

  /** The four preference tiers, most preferred first. */
  datatype Tier = FlashOneFive | AnyFlash | GeminiPro | NotTwoFivePro

  /** `'flash' in name.lower()`. */
  predicate IsFlash(name: string)
  {
    Contains(Lower(name), "flash")
  }

  /** The test each tier applies to a model name. Only the `flash` test
      ignores case. */
  predicate Accepts(t: Tier, name: string)
  {
    match t
    case FlashOneFive => IsFlash(name) && Contains(name, "1.5")
    case AnyFlash => IsFlash(name)
    case GeminiPro => Contains(name, "gemini-pro")
    case NotTwoFivePro => !Contains(name, "2.5-pro")
  }

  /** The names of the candidates, in listing order. */
  function Available(models: seq<ModelInfo>): (names: seq<string>)
    ensures |names| <= |models|
    ensures forall n :: n in names <==>
      exists i :: 0 <= i < |models| && models[i].name == n && IsCandidate(models[i])
    decreases |models|
  {
    if models == [] then []
    else
      var rest := Available(models[1..]);
      assert forall i :: 0 < i < |models| ==> models[i] == models[1..][i - 1];
      (if IsCandidate(models[0]) then [models[0].name] else []) + rest
  }

  /** Appending a model to the listing appends its name when it qualifies. */
  lemma {:induction false} AvailableSnoc(models: seq<ModelInfo>, m: ModelInfo)
    ensures Available(models + [m]) ==
      Available(models) + (if IsCandidate(m) then [m.name] else [])
    decreases |models|
  {
    if models == [] {
      assert models + [m] == [m];
    } else {
      assert (models + [m])[0] == models[0];
      assert (models + [m])[1..] == models[1..] + [m];
      AvailableSnoc(models[1..], m);
    }
  }

  /** The first name, in order, that the tier accepts. */
  function FirstMatch(names: seq<string>, t: Tier): (r: Option<string>)
    ensures r.Some? ==> r.value in names && Accepts(t, r.value)
    ensures r.None? <==> forall n :: n in names ==> !Accepts(t, n)
    decreases |names|
  {
    if names == [] then None
    else if Accepts(t, names[0]) then Some(names[0])
    else
      assert forall n :: n in names ==> n == names[0] || n in names[1..];
      FirstMatch(names[1..], t)
  }

  /** The selection policy on the candidates' names: the first name of the
      most preferred tier that has one, else the default. */
  function SelectFrom(names: seq<string>): (r: string)
    ensures r == DefaultModel || r in names
  {
    var t1, t2, t3, t4 :=
      FirstMatch(names, FlashOneFive), FirstMatch(names, AnyFlash),
      FirstMatch(names, GeminiPro), FirstMatch(names, NotTwoFivePro);
    if t1.Some? then t1.value
    else if t2.Some? then t2.value
    else if t3.Some? then t3.value
    else if t4.Some? then t4.value
    else DefaultModel
  }

  /** What `get_working_model` returns for a listing. The result is always
      a listed model that supports `generateContent`, or the default. */
  function SelectModel(listing: Listing): (name: string)
    ensures name == DefaultModel ||
      (listing.Listed? &&
       exists i :: 0 <= i < |listing.models| && listing.models[i].name == name && IsCandidate(listing.models[i]))
  {
    match listing
    case ListingFailed => DefaultModel
    case Listed(models) => SelectFrom(Available(models))
  }

  /** The loop that collects, in listing order, the names of the models
      that support `generateContent`. */
  method ListAvailable(models: seq<ModelInfo>) returns (available: seq<string>)
    ensures available == Available(models)
  {
    available := [];
    for i := 0 to |models|
      invariant available == Available(models[..i])
    {
      AvailableSnoc(models[..i], models[i]);
      assert models[..i + 1] == models[..i] + [models[i]];
      if GenerateContent in models[i].supportedMethods {
        available := available + [models[i].name];
      }
    }
    assert models[..|models|] == models;
  }

  /** `get_working_model` as the source runs it: collect the candidates'
      names with a loop, then scan them once per tier and return on the
      first hit; a failed listing yields the default. */
  method GetWorkingModel(listing: Listing) returns (name: string)
    ensures name == SelectModel(listing)
  {
    if listing.ListingFailed? {
      return DefaultModel;
    }
    var available := ListAvailable(listing.models);

    for i := 0 to |available|
      invariant FirstMatch(available[i..], FlashOneFive) == FirstMatch(available, FlashOneFive)
    {
      var m := available[i];
      assert available[i..][1..] == available[i + 1..];
      if Contains(Lower(m), "flash") && Contains(m, "1.5") {
        return m;
      }
    }
    for i := 0 to |available|
      invariant FirstMatch(available[i..], AnyFlash) == FirstMatch(available, AnyFlash)
    {
      var m := available[i];
      assert available[i..][1..] == available[i + 1..];
      if Contains(Lower(m), "flash") {
        return m;
      }
    }
    for i := 0 to |available|
      invariant FirstMatch(available[i..], GeminiPro) == FirstMatch(available, GeminiPro)
    {
      var m := available[i];
      assert available[i..][1..] == available[i + 1..];
      if Contains(m, "gemini-pro") {
        return m;
      }
    }
    for i := 0 to |available|
      invariant FirstMatch(available[i..], NotTwoFivePro) == FirstMatch(available, NotTwoFivePro)
    {
      var m := available[i];
      assert available[i..][1..] == available[i + 1..];
      if !Contains(m, "2.5-pro") {
        return m;
      }
    }
    return DefaultModel;
  }

  /** No candidate of the listing passes the tier's test. */
  ghost predicate NoCandidate(models: seq<ModelInfo>, t: Tier)
  {
    forall j :: 0 <= j < |models| && IsCandidate(models[j]) ==> !Accepts(t, models[j].name)
  }

  /** `models[k]` is the first candidate, in listing order, that passes the
      tier's test. */
  ghost predicate FirstCandidate(models: seq<ModelInfo>, t: Tier, k: int)
  {
    0 <= k < |models| && IsCandidate(models[k]) && Accepts(t, models[k].name) &&
    forall j :: 0 <= j < k && IsCandidate(models[j]) ==> !Accepts(t, models[j].name)
  }

  /** Scanning the candidates' names for a tier finds nothing exactly when
      no candidate of the listing passes the tier's test. */
  lemma NoMatchWithoutCandidate(models: seq<ModelInfo>, t: Tier)
    ensures FirstMatch(Available(models), t).None? <==> NoCandidate(models, t)
  {
    var names := Available(models);
    if FirstMatch(names, t).None? {
      forall j | 0 <= j < |models| && IsCandidate(models[j])
        ensures !Accepts(t, models[j].name)
      {
        assert models[j].name in names;
      }
    } else {
      var n := FirstMatch(names, t).value;
      var j :| 0 <= j < |models| && models[j].name == n && IsCandidate(models[j]);
      assert !NoCandidate(models, t);
    }
  }

  /** Scanning the candidates' names for a tier stops at the first candidate
      of the listing that the tier accepts. */
  lemma {:induction false} FirstMatchFindsFirstCandidate(models: seq<ModelInfo>, t: Tier, k: int)
    requires FirstCandidate(models, t, k)
    ensures FirstMatch(Available(models), t) == Some(models[k].name)
    decreases |models|
  {
    var m, rest := models[0], models[1..];
    var names := Available(models);
    if k == 0 {
      assert names[0] == m.name;
    } else {
      assert FirstCandidate(rest, t, k - 1) by {
        forall j | 0 <= j < k - 1 && IsCandidate(rest[j])
          ensures !Accepts(t, rest[j].name)
        {
          assert rest[j] == models[j + 1];
        }
      }
      FirstMatchFindsFirstCandidate(rest, t, k - 1);
      assert models[k] == rest[k - 1];
      if IsCandidate(m) {
        assert names[0] == m.name && !Accepts(t, m.name);
        assert names[1..] == Available(rest);
      } else {
        assert names == Available(rest);
      }
    }
  }

  /** When some candidate passes a tier's test, a first one does. */
  lemma {:induction false} FirstCandidateExists(models: seq<ModelInfo>, t: Tier)
    requires !NoCandidate(models, t)
    ensures exists k :: FirstCandidate(models, t, k)
    decreases |models|
  {
    if IsCandidate(models[0]) && Accepts(t, models[0].name) {
      assert FirstCandidate(models, t, 0);
    } else {
      var rest := models[1..];
      assert !NoCandidate(rest, t) by {
        var j :| 0 <= j < |models| && IsCandidate(models[j]) && Accepts(t, models[j].name);
        assert rest[j - 1] == models[j];
      }
      FirstCandidateExists(rest, t);
      var k :| FirstCandidate(rest, t, k);
      assert FirstCandidate(models, t, k + 1) by {
        forall j | 0 <= j < k + 1 && IsCandidate(models[j])
          ensures !Accepts(t, models[j].name)
        {
          if j > 0 {
            assert models[j] == rest[j - 1];
          }
        }
      }
    }
  }

  /** A name with "flash" at position `k`, in any mix of upper and lower
      case, passes the flash test. */
  lemma FlashAt(name: string, k: nat)
    requires k + 5 <= |name|
    requires forall i :: 0 <= i < 5 ==> LowerChar(name[k + i]) == "flash"[i]
    ensures IsFlash(name)
  {
    var low := Lower(name);
    assert low[k..k + 5] == "flash" by {
      forall i | 0 <= i < 5 ensures low[k + i] == "flash"[i] {
      }
    }
    ContainsInSlice(low, k, k + 5, "flash");
  }

  /** The flash test ignores case: a name spelled with "FLASH" passes the
      first tier. */
  lemma UpperCaseFlashOneFive()
    ensures Accepts(FlashOneFive, "models/Gemini-1.5-FLASH")
  {
    var name := "models/Gemini-1.5-FLASH";
    assert name[18..23] == "FLASH";
    FlashAt(name, 18);
    assert name[14..17] == "1.5";
    ContainsInSlice(name, 14, 17, "1.5");
  }

  /** A name without `f` or `F` fails the flash test. */
  lemma NotFlashWithout(name: string)
    requires 'f' !in name && 'F' !in name
    ensures !IsFlash(name)
  {
    var low := Lower(name);
    assert 'f' !in low by {
      forall i | 0 <= i < |low| ensures low[i] != 'f' {
        assert name[i] in name;
      }
    }
    NotContainsWithout(low, "flash", 'f');
  }

  /** A Gemini flash model's name, whatever its version and suffix, passes
      the flash test and contains its version. */
  lemma FlashModelName(version: string, suffix: string)
    ensures IsFlash("models/gemini-" + version + "-flash" + suffix)
    ensures Contains("models/gemini-" + version + "-flash" + suffix, version)
  {
    var name := "models/gemini-" + version + "-flash" + suffix;
    var k := 15 + |version|;
    assert name[k..k + 5] == "flash" by {
      forall i | 0 <= i < 5 ensures name[k + i] == "flash"[i] {
        assert name[k + i] == "-flash"[i + 1];
      }
    }
    FlashAt(name, k);
    assert name[14..14 + |version|] == version;
    ContainsInSlice(name, 14, 14 + |version|, version);
  }

  /** The default name passes the first tier. */
  lemma DefaultModelIsFlashOneFive()
    ensures Accepts(FlashOneFive, DefaultModel)
  {
    FlashModelName("1.5", "");
    assert "models/gemini-" + "1.5" + "-flash" + "" == DefaultModel;
  }

  /** The default name is not a "2.5-pro" model. */
  lemma DefaultModelIsNotExpensive()
    ensures !Contains(DefaultModel, "2.5-pro")
  {
    NotContainsWithout(DefaultModel, "2.5-pro", '2');
  }

  /** The tiers in strict order: the selection is the first candidate, in
      listing order, of the first tier that has one, and the default when
      no tier has any. */
  lemma SelectionPriority(models: seq<ModelInfo>)
    ensures forall k :: FirstCandidate(models, FlashOneFive, k) ==>
      SelectModel(Listed(models)) == models[k].name
    ensures NoCandidate(models, FlashOneFive) ==>
      forall k :: FirstCandidate(models, AnyFlash, k) ==>
        SelectModel(Listed(models)) == models[k].name
    ensures NoCandidate(models, FlashOneFive) && NoCandidate(models, AnyFlash) ==>
      forall k :: FirstCandidate(models, GeminiPro, k) ==>
        SelectModel(Listed(models)) == models[k].name
    ensures (NoCandidate(models, FlashOneFive) && NoCandidate(models, AnyFlash) &&
             NoCandidate(models, GeminiPro)) ==>
      forall k :: FirstCandidate(models, NotTwoFivePro, k) ==>
        SelectModel(Listed(models)) == models[k].name
    ensures (NoCandidate(models, FlashOneFive) && NoCandidate(models, AnyFlash) &&
             NoCandidate(models, GeminiPro) && NoCandidate(models, NotTwoFivePro)) ==>
      SelectModel(Listed(models)) == DefaultModel
  {
    NoMatchWithoutCandidate(models, FlashOneFive);
    NoMatchWithoutCandidate(models, AnyFlash);
    NoMatchWithoutCandidate(models, GeminiPro);
    NoMatchWithoutCandidate(models, NotTwoFivePro);
    forall t, k | FirstCandidate(models, t, k)
      ensures FirstMatch(Available(models), t) == Some(models[k].name)
    {
      FirstMatchFindsFirstCandidate(models, t, k);
    }
  }

  /** A pick from a later tier means every earlier tier had no candidate:
      a name without "flash" and "1.5" is chosen only when no candidate has
      both, a name without "flash" only when no candidate has it, and a
      "2.5-pro" name only through the "flash" or "gemini-pro" tiers. */
  lemma TierPrecedence(models: seq<ModelInfo>)
    ensures var r := SelectModel(Listed(models));
      (!Accepts(FlashOneFive, r) ==> NoCandidate(models, FlashOneFive)) &&
      (!IsFlash(r) ==> NoCandidate(models, AnyFlash)) &&
      (!IsFlash(r) && !Contains(r, "gemini-pro") ==> NoCandidate(models, GeminiPro)) &&
      (Contains(r, "2.5-pro") ==> IsFlash(r) || Contains(r, "gemini-pro"))
  {
    DefaultModelIsFlashOneFive();
    DefaultModelIsNotExpensive();
    NoMatchWithoutCandidate(models, FlashOneFive);
    NoMatchWithoutCandidate(models, AnyFlash);
    NoMatchWithoutCandidate(models, GeminiPro);
  }

  /** A listing failure is not an error: it yields the default name. */
  lemma ListingFailureYieldsDefault()
    ensures SelectModel(ListingFailed) == DefaultModel
  {
  }

  /** The "1.5" flash model passes the first tier's test. */
  lemma FlashLatestName()
    ensures Accepts(FlashOneFive, "models/gemini-1.5-flash-latest")
  {
    var name := "models/gemini-1.5-flash-latest";
    assert name[18..23] == "flash";
    FlashAt(name, 18);
    assert name[14..17] == "1.5";
    ContainsInSlice(name, 14, 17, "1.5");
  }

  /** With a "1.5" flash model listed before a "2.5-pro" model, the flash
      model is chosen. */
  lemma FlashOneFiveBeatsTwoFivePro()
    ensures SelectModel(Listed([
      ModelInfo("models/gemini-1.5-flash-latest", {GenerateContent}),
      ModelInfo("models/gemini-2.5-pro", {GenerateContent})]))
      == "models/gemini-1.5-flash-latest"
  {
    var models := [ModelInfo("models/gemini-1.5-flash-latest", {GenerateContent}),
      ModelInfo("models/gemini-2.5-pro", {GenerateContent})];
    FlashLatestName();
    assert FirstCandidate(models, FlashOneFive, 0);
    SelectionPriority(models);
  }

  /** After "gemini-" comes the version, not "pro". */
  lemma VersionedTailIsNotGeminiPro(version: string)
    requires version != [] && version[0] != 'p' && 'g' !in version
    ensures !Contains("gemini-" + version + "-pro", "gemini-pro")
  {
    var tail := "gemini-" + version + "-pro";
    assert !("gemini-pro" <= tail) by { assert tail[7] == version[0]; }
    assert tail[1..] == "emini-" + version + "-pro";
    NotContainsWithout(tail[1..], "gemini-pro", 'g');
  }

  /** A versioned Pro model is not a "gemini-pro" model: the version
      number sits between the two words. */
  lemma VersionedProIsNotGeminiPro(version: string)
    requires version != [] && version[0] != 'p' && 'g' !in version
    ensures !Contains("models/gemini-" + version + "-pro", "gemini-pro")
  {
    var tail := "gemini-" + version + "-pro";
    VersionedTailIsNotGeminiPro(version);
    assert "models/gemini-" + version + "-pro" == "models/" + tail;
    ContainsSkipping("models/", tail, "gemini-pro");
  }

  /** The "2.5-pro" model is not a "gemini-pro" model. */
  lemma TwoFiveProIsNotGeminiPro()
    ensures !Contains("models/gemini-2.5-pro", "gemini-pro")
  {
    VersionedProIsNotGeminiPro("2.5");
    assert "models/gemini-" + "2.5" + "-pro" == "models/gemini-2.5-pro";
  }

  /** The "2.5-pro" model carries the expensive marker. */
  lemma TwoFiveProIsExpensive()
    ensures Contains("models/gemini-2.5-pro", "2.5-pro")
  {
    var pro := "models/gemini-2.5-pro";
    assert pro[14..] == "2.5-pro";
    ContainsInSuffix(pro, 14, "2.5-pro");
  }

  /** The fourth tier on a three-model listing: a model that cannot
      generate content, a "2.5-pro" candidate and a plain candidate, none of
      them flash or "gemini-pro"; the plain candidate is chosen. */
  lemma FourthTierPick(skipped: ModelInfo, pro: ModelInfo, pick: ModelInfo)
    requires !IsCandidate(skipped)
    requires IsCandidate(pro) && !IsFlash(pro.name) && !Contains(pro.name, "gemini-pro")
    requires Contains(pro.name, "2.5-pro")
    requires IsCandidate(pick) && !IsFlash(pick.name) && !Contains(pick.name, "gemini-pro")
    requires !Contains(pick.name, "2.5-pro")
    ensures SelectModel(Listed([skipped, pro, pick])) == pick.name
  {
    var models := [skipped, pro, pick];
    forall t: Tier, j | t != NotTwoFivePro && 0 <= j < |models| && IsCandidate(models[j])
      ensures !Accepts(t, models[j].name)
    {
      assert j == 1 || j == 2;
    }
    assert FirstCandidate(models, NotTwoFivePro, 2);
    SelectionPriority(models);
  }

  /** The "2.5-pro" model has no "flash" in its name, in any case. */
  lemma TwoFiveProIsNotFlash()
    ensures !IsFlash("models/gemini-2.5-pro")
  {
    NotFlashWithout("models/gemini-2.5-pro");
  }

  /** A Gemma model fails the flash test. */
  lemma GemmaIsNotFlash()
    ensures !IsFlash("models/gemma-3-27b-it")
  {
    NotFlashWithout("models/gemma-3-27b-it");
  }

  /** A Gemma model fails the "gemini-pro" test. */
  lemma GemmaIsNotGeminiPro()
    ensures !Contains("models/gemma-3-27b-it", "gemini-pro")
  {
    NotContainsWithout("models/gemma-3-27b-it", "gemini-pro", 'p');
  }

  /** A Gemma model passes the fourth tier's test. */
  lemma GemmaIsNotExpensive()
    ensures !Contains("models/gemma-3-27b-it", "2.5-pro")
  {
    NotContainsWithout("models/gemma-3-27b-it", "2.5-pro", 'p');
  }

  /** With no flash or "gemini-pro" candidate, the first candidate that is
      not a "2.5-pro" model is chosen; a model that cannot generate content
      is passed over even when it would rank first. */
  lemma EmergencyPick()
    ensures SelectModel(Listed([
      ModelInfo("models/gemini-1.5-flash", {"embedContent"}),
      ModelInfo("models/gemini-2.5-pro", {GenerateContent}),
      ModelInfo("models/gemma-3-27b-it", {GenerateContent})]))
      == "models/gemma-3-27b-it"
  {
    TwoFiveProIsNotFlash();
    GemmaIsNotFlash();
    GemmaIsNotGeminiPro();
    GemmaIsNotExpensive();
    TwoFiveProIsNotGeminiPro();
    TwoFiveProIsExpensive();
    FourthTierPick(ModelInfo("models/gemini-1.5-flash", {"embedContent"}),
      ModelInfo("models/gemini-2.5-pro", {GenerateContent}),
      ModelInfo("models/gemma-3-27b-it", {GenerateContent}));
  }

  /** When every candidate is a "2.5-pro" model outside the first three
      tiers, the default is chosen. */
  lemma OnlyTwoFiveProYieldsDefault()
    ensures SelectModel(Listed([
      ModelInfo("models/gemini-2.5-pro", {GenerateContent}),
      ModelInfo("models/gemini-1.5-flash", {"embedContent"})]))
      == DefaultModel
  {
    var models := [ModelInfo("models/gemini-2.5-pro", {GenerateContent}),
      ModelInfo("models/gemini-1.5-flash", {"embedContent"})];
    assert !IsCandidate(models[1]);
    TwoFiveProIsNotFlash();
    TwoFiveProIsNotGeminiPro();
    TwoFiveProIsExpensive();
    forall t: Tier, j | 0 <= j < |models| && IsCandidate(models[j])
      ensures !Accepts(t, models[j].name)
    {
      assert j == 0;
    }
    SelectionPriority(models);
  }
}
