/** The three modes of the translator over an i18n folder: the plain
    translation with its DeepL partition and Google fallback, the cleanup
    of short keys, and the resume from a start key. Each prompt's answer is
    a parameter; a folder is a map from file name to what `read_json` finds
    there, and the listing of the folder is a sequence of names. */
module Session {
  import opened Wrappers
  import opened Text
  import opened Seqs
  import opened Dicts
  import opened Routing
  import opened Cost
  import opened Bundles
  import opened Languages

  /** A language file as `read_json` sees it. */
  datatype FileContent = Malformed | Json(doc: Bundle)

  /** The i18n folder: file name to content. */
  type Folder = map<string, FileContent>

  /** The template file: absent, not JSON, or a document of strings. */
  datatype TemplateFile = Missing | Unreadable | Loaded(template: Template)

  /** `read_json` on a file of the folder; `None` where it is not JSON. */
  function ReadBundle(folder: Folder, f: string): Option<Bundle> {
    if f in folder && folder[f].Json? then Some(folder[f].doc) else None
  }

  /** Python truthiness of what `read_json` returned: a non-empty document. */
  predicate IsTruthy(content: Option<Bundle>) {
    content.Some? && !content.value.IsEmpty()
  }

  /** The file a language's bundle is written to. */
  function FileOf(lang: string): string {
    lang + ".json"
  }

  /** Distinct languages are written to distinct files. */
  lemma FileOfInjective(a: string, b: string)
    requires FileOf(a) == FileOf(b)
    ensures a == b
  {
    SuffixCancels(a, b, ".json");
  }

  /** A language code without a dot names its own file again. */
  lemma LanguageOfFileOf(lang: string)
    requires '.' !in lang
    ensures FirstDotPart(FileOf(lang)) == lang
  {
    var f := FileOf(lang);
    var r := FirstDotPart(f);
    assert f[..|lang|] == lang;
    assert f[|lang|] == '.';
    if |r| != |lang| {
      assert false;
    }
  }

  // ---------------------------------------------------------------------------
  // The translators each loop hands to the bundle operations

  function PlainTranslator(svc: Services, deeplKey: string, googleKey: string, lang: string, source: string): Translator {
    text => TranslateText(svc, deeplKey, googleKey, text, lang, source)
  }

  function GoogleTranslator(svc: Services, googleKey: string, lang: string, source: string): Translator {
    text => svc.google(googleKey, text, lang, source)
  }

  function ResumeTranslator(svc: Services, deeplKey: string, googleKey: string, deeplLangs: set<string>,
                            lang: string, source: string): Translator {
    text => ResumeTranslate(svc, deeplKey, googleKey, deeplLangs, text, lang, source)
  }

  /** A translation pass over whole bundles: the primary one of
      `start_translation`, routed per text, or the Google-only fallback. */
  datatype Pass =
    | Primary(svc: Services, deeplKey: string, googleKey: string, source: string)
    | GoogleOnly(svc: Services, googleKey: string, source: string)

  function TranslatorFor(pass: Pass, lang: string): Translator {
    match pass
    case Primary(svc, deeplKey, googleKey, source) => PlainTranslator(svc, deeplKey, googleKey, lang, source)
    case GoogleOnly(svc, googleKey, source) => GoogleTranslator(svc, googleKey, lang, source)
  }

  /** The bundle a pass produces for one language. */
  function BundleFor(t: Template, pass: Pass, lang: string): Bundle {
    Populated(t, TranslatorFor(pass, lang))
  }

  function ComesOutEmpty(t: Template, pass: Pass): string -> bool {
    lang => BundleFor(t, pass, lang).IsEmpty()
  }

  /** The files a pass over `langs` writes: a language's file exactly when
      its bundle is not empty. */
  function Written(t: Template, pass: Pass, langs: seq<string>): (w: set<string>)
    ensures forall lang :: lang in langs ==> (FileOf(lang) in w <==> !BundleFor(t, pass, lang).IsEmpty())
    ensures forall f :: f in w ==> exists lang :: lang in langs && f == FileOf(lang)
    decreases |langs|
  {
    if langs == [] then {}
    else
      var w0 := Written(t, pass, langs[..|langs| - 1]);
      var lang := langs[|langs| - 1];
      var w := if BundleFor(t, pass, lang).IsEmpty() then w0 else w0 + {FileOf(lang)};
      WrittenExtend(t, pass, langs, w0, w);
      w
  }

  /** The step of `Written`: adding the last language's file keeps both facts. */
  lemma WrittenExtend(t: Template, pass: Pass, langs: seq<string>, w0: set<string>, w: set<string>)
    requires langs != []
    requires var init := langs[..|langs| - 1];
             && (forall lang :: lang in init ==> (FileOf(lang) in w0 <==> !BundleFor(t, pass, lang).IsEmpty()))
             && (forall f :: f in w0 ==> exists lang :: lang in init && f == FileOf(lang))
    requires var lang := langs[|langs| - 1];
             w == if BundleFor(t, pass, lang).IsEmpty() then w0 else w0 + {FileOf(lang)}
    ensures forall lang :: lang in langs ==> (FileOf(lang) in w <==> !BundleFor(t, pass, lang).IsEmpty())
    ensures forall f :: f in w ==> exists lang :: lang in langs && f == FileOf(lang)
  {
    var init := langs[..|langs| - 1];
    var last := langs[|langs| - 1];
    forall l | l in langs
      ensures FileOf(l) in w <==> !BundleFor(t, pass, l).IsEmpty()
    {
      if l != last {
        assert l in init;
        if FileOf(l) == FileOf(last) {
          FileOfInjective(l, last);
        }
      } else if BundleFor(t, pass, l).IsEmpty() && FileOf(l) in w0 {
        var l' :| l' in init && FileOf(l) == FileOf(l');
        FileOfInjective(l, l');
      }
    }
    forall f | f in w
      ensures exists lang :: lang in langs && f == FileOf(lang)
    {
      if f in w0 {
        var l' :| l' in init && f == FileOf(l');
        assert l' in langs;
      } else {
        assert f == FileOf(last) && last in langs;
      }
    }
  }

  // ---------------------------------------------------------------------------
  // The per-language loops of start_translation and fallback_translation

  /** The folder after a pass over `langs`, and the languages whose bundle
      came out empty, in order; `TranslatedDeferred`, `TranslatedKeys`,
      `TranslatedWrites` and `TranslatedKeeps` state what it holds. */
  function TranslatedAll(folder: Folder, t: Template, pass: Pass, langs: seq<string>): (Folder, seq<string>)
    decreases |langs|
  {
    if langs == [] then (folder, [])
    else
      var r0 := TranslatedAll(folder, t, pass, langs[..|langs| - 1]);
      var lang := langs[|langs| - 1];
      var b := BundleFor(t, pass, lang);
      if b.IsEmpty() then (r0.0, r0.1 + [lang]) else (r0.0[FileOf(lang) := Json(b)], r0.1)
  }

  /** The deferred languages are the ones whose bundle came out empty, in order. */
  lemma {:induction false} TranslatedDeferred(folder: Folder, t: Template, pass: Pass, langs: seq<string>)
    ensures TranslatedAll(folder, t, pass, langs).1 == Filter(langs, ComesOutEmpty(t, pass))
    decreases |langs|
  {
    if langs != [] {
      TranslatedDeferred(folder, t, pass, langs[..|langs| - 1]);
    }
  }

  /** The pass adds exactly the files of the languages whose bundle is not empty. */
  lemma {:induction false} TranslatedKeys(folder: Folder, t: Template, pass: Pass, langs: seq<string>)
    ensures TranslatedAll(folder, t, pass, langs).0.Keys == folder.Keys + Written(t, pass, langs)
    decreases |langs|
  {
    if langs != [] {
      var init := langs[..|langs| - 1];
      var lang := langs[|langs| - 1];
      var r0 := TranslatedAll(folder, t, pass, init).0;
      var b := BundleFor(t, pass, lang);
      TranslatedKeys(folder, t, pass, init);
      KeysGrow(r0, folder.Keys, Written(t, pass, init), FileOf(lang), Json(b), b.IsEmpty());
    }
  }

  lemma KeysGrow(r0: Folder, keys: set<string>, w0: set<string>, k: string, v: FileContent, skip: bool)
    requires r0.Keys == keys + w0
    ensures (if skip then r0 else r0[k := v]).Keys == keys + if skip then w0 else w0 + {k}
  {
  }

  /** A non-empty bundle replaces its language's file. */
  lemma {:induction false} TranslatedWrites(folder: Folder, t: Template, pass: Pass, langs: seq<string>, lang: string)
    requires lang in langs && !BundleFor(t, pass, lang).IsEmpty()
    ensures var r := TranslatedAll(folder, t, pass, langs).0;
            FileOf(lang) in r && r[FileOf(lang)] == Json(BundleFor(t, pass, lang))
    decreases |langs|
  {
    var init := langs[..|langs| - 1];
    var last := langs[|langs| - 1];
    if lang != last {
      assert lang in init;
      TranslatedWrites(folder, t, pass, init, lang);
      if !BundleFor(t, pass, last).IsEmpty() && FileOf(last) == FileOf(lang) {
        FileOfInjective(last, lang);
      }
    }
  }

  /** Every file the pass does not write is left as it was. */
  lemma {:induction false} TranslatedKeeps(folder: Folder, t: Template, pass: Pass, langs: seq<string>, f: string)
    requires f in folder && f !in Written(t, pass, langs)
    ensures var r := TranslatedAll(folder, t, pass, langs).0;
            f in r && r[f] == folder[f]
    decreases |langs|
  {
    if langs != [] {
      TranslatedKeeps(folder, t, pass, langs[..|langs| - 1], f);
    }
  }

  lemma TranslatedStep(folder: Folder, t: Template, pass: Pass, langs: seq<string>, i: nat)
    requires i < |langs|
    ensures TranslatedAll(folder, t, pass, langs[..i + 1])
            == var r0 := TranslatedAll(folder, t, pass, langs[..i]);
               var b := BundleFor(t, pass, langs[i]);
               if b.IsEmpty() then (r0.0, r0.1 + [langs[i]]) else (r0.0[FileOf(langs[i]) := Json(b)], r0.1)
  {
    assert langs[..i + 1][..i] == langs[..i];
  }

  /** The `for` loop over languages: populate, then write or defer. */
  method TranslateLanguages(folder: Folder, t: Template, pass: Pass, langs: seq<string>)
    returns (out: Folder, empties: seq<string>)
    ensures (out, empties) == TranslatedAll(folder, t, pass, langs)
  {
    out := folder;
    empties := [];
    var i := 0;
    while i < |langs|
      invariant 0 <= i <= |langs|
      invariant (out, empties) == TranslatedAll(folder, t, pass, langs[..i])
    {
      var lang := langs[i];
      TranslatedStep(folder, t, pass, langs, i);
      var b := Populate(t, TranslatorFor(pass, lang));
      if !b.IsEmpty() {
        out := out[FileOf(lang) := Json(b)];
      } else {
        empties := empties + [lang];
      }
      i := i + 1;
    }
    assert langs[..i] == langs;
  }

  /** Every language of a pass is accounted for: it is deferred exactly when
      its bundle is empty, and otherwise its file holds that bundle. */
  lemma EveryLanguageAccountedFor(folder: Folder, t: Template, pass: Pass, langs: seq<string>, lang: string)
    requires lang in langs
    ensures var r := TranslatedAll(folder, t, pass, langs);
            (lang in r.1 <==> BundleFor(t, pass, lang).IsEmpty())
            && (lang !in r.1 ==> FileOf(lang) in r.0 && r.0[FileOf(lang)] == Json(BundleFor(t, pass, lang)))
  {
    var i :| 0 <= i < |langs| && langs[i] == lang;
    TranslatedDeferred(folder, t, pass, langs);
    if !BundleFor(t, pass, lang).IsEmpty() {
      TranslatedWrites(folder, t, pass, langs, lang);
    }
    if BundleFor(t, pass, lang).IsEmpty() {
      assert ComesOutEmpty(t, pass)(langs[i]);
    }
  }

  // ---------------------------------------------------------------------------
  // fallback_translation

  datatype FallbackReport =
    | NotOffered                                         // nothing deferred, or no key entered
    | NoLanguages                                        // no deferred language is listed by Google
    | FallbackDeclined(languages: seq<string>, cost: nat)
    | FallbackDone(languages: seq<string>, cost: nat)

  /** What the fallback reports for the deferred languages: the Google-supported
      ones in order with their cost, and whether the user confirmed. */
  function FallbackOutcome(t: Template, svc: Services, googleKey: string, deferred: seq<string>,
                           approve: bool): (r: FallbackReport)
    ensures var langs := GoogleTargets(deferred, svc.googleLanguages(googleKey));
            (r == NoLanguages <==> langs == [])
            && (r.FallbackDone? <==> langs != [] && approve)
            && (r.FallbackDeclined? <==> langs != [] && !approve)
            && (r.FallbackDone? || r.FallbackDeclined? ==>
                  r.languages == langs && r.cost == CostEstimate(t, langs)
                  && forall l :: l in r.languages <==> l in deferred && l in svc.googleLanguages(googleKey))
  {
    var langs := GoogleTargets(deferred, svc.googleLanguages(googleKey));
    if langs == [] then NoLanguages
    else if approve then FallbackDone(langs, CostEstimate(t, langs))
    else FallbackDeclined(langs, CostEstimate(t, langs))
  }

  method FallbackTranslation(folder: Folder, t: Template, svc: Services, googleKey: string,
                             notTranslated: seq<string>, source: string, approve: bool)
    returns (out: Folder, report: FallbackReport)
    ensures report == FallbackOutcome(t, svc, googleKey, notTranslated, approve)
    ensures out == if report.FallbackDone?
                   then TranslatedAll(folder, t, GoogleOnly(svc, googleKey, source), report.languages).0
                   else folder
  {
    var supported := svc.googleLanguages(googleKey);
    var langs := GoogleTargets(notTranslated, supported);
    out := folder;
    if langs == [] {
      report := NoLanguages;
      return;
    }
    var totalChars := CountCharacters(t) * |langs|;
    if approve {
      var stillEmpty;
      out, stillEmpty := TranslateLanguages(folder, t, GoogleOnly(svc, googleKey, source), langs);
      report := FallbackDone(langs, totalChars);
    } else {
      report := FallbackDeclined(langs, totalChars);
    }
  }

  // ---------------------------------------------------------------------------
  // start_translation

  /** The relation between the inputs of `start_translation` and its
      results: every target is populated and written or deferred, the
      deferred list extends the one handed in, and the fallback is offered
      exactly when something is deferred and a key was entered for it. */
  ghost predicate StartedFrom(folder: Folder, t: Template, svc: Services, deeplKey: string, googleKey: string,
                              source: string, targets: seq<string>, notTranslated: seq<string>,
                              fallbackKey: string, approveFallback: bool,
                              out: Folder, deferred: seq<string>, fallback: FallbackReport)
  {
    var r := TranslatedAll(folder, t, Primary(svc, deeplKey, googleKey, source), targets);
    && deferred == notTranslated + r.1
    && fallback == (if deferred != [] && fallbackKey != ""
                    then FallbackOutcome(t, svc, fallbackKey, deferred, approveFallback)
                    else NotOffered)
    && out == if fallback.FallbackDone?
              then TranslatedAll(r.0, t, GoogleOnly(svc, fallbackKey, source), fallback.languages).0
              else r.0
  }

  method StartTranslation(folder: Folder, t: Template, svc: Services, deeplKey: string, googleKey: string,
                          source: string, targets: seq<string>, notTranslated: seq<string>,
                          fallbackKey: string, approveFallback: bool)
    returns (out: Folder, deferred: seq<string>, fallback: FallbackReport)
    ensures StartedFrom(folder, t, svc, deeplKey, googleKey, source, targets, notTranslated,
                        fallbackKey, approveFallback, out, deferred, fallback)
  {
    var empties;
    out, empties := TranslateLanguages(folder, t, Primary(svc, deeplKey, googleKey, source), targets);
    deferred := notTranslated + empties;
    fallback := NotOffered;
    if deferred != [] && fallbackKey != "" {
      out, fallback := FallbackTranslation(out, t, svc, fallbackKey, deferred, source, approveFallback);
    }
  }

  // ---------------------------------------------------------------------------
  // The modes of confirm_translation

  datatype Reason = NoTemplate | InvalidTemplate | NoDeepLKey | NoGoogleKey | NoKeys | BadStartKey

  datatype Outcome =
    | Cancelled(reason: Reason)
    | NotConfirmed(targets: seq<string>, notTranslated: seq<string>, cost: nat)
    | TranslationRun(targets: seq<string>, deferred: seq<string>, cost: nat, fallback: FallbackReport)
    | FilesRewritten

  /** The answers to the prompts of the plain mode, in the order asked. */
  datatype PlainAnswers = PlainAnswers(deeplKey: string, googleKey: string, approve: bool,
                                       fallbackKey: string, approveFallback: bool)

  /** The plain branch of `confirm_translation`. */
  method PlainMode(folder: Folder, files: seq<string>, templateLang: string, template: TemplateFile,
                   svc: Services, answers: PlainAnswers)
    returns (out: Folder, outcome: Outcome)
    ensures template.Missing? ==> outcome == Cancelled(NoTemplate) && out == folder
    ensures template.Unreadable? ==> outcome == Cancelled(InvalidTemplate) && out == folder
    ensures template.Loaded? && answers.deeplKey == "" ==> outcome == Cancelled(NoDeepLKey) && out == folder
    ensures template.Loaded? && answers.deeplKey != "" && answers.googleKey == "" ==>
              outcome == Cancelled(NoGoogleKey) && out == folder
    ensures template.Loaded? && answers.deeplKey != "" && answers.googleKey != "" ==>
              var t := template.template;
              var p := ConfirmPartition(TargetLanguages(files, templateLang), svc.deeplLanguages(answers.deeplKey));
              var cost := CostEstimate(t, p.0);
              if !answers.approve then outcome == NotConfirmed(p.0, p.1, cost) && out == folder
              else outcome.TranslationRun? && outcome.targets == p.0 && outcome.cost == cost
                   && StartedFrom(folder, t, svc, answers.deeplKey, answers.googleKey, templateLang, p.0, p.1,
                                  answers.fallbackKey, answers.approveFallback,
                                  out, outcome.deferred, outcome.fallback)
  {
    out := folder;
    if template.Missing? {
      outcome := Cancelled(NoTemplate);
      return;
    }
    if template.Unreadable? {
      outcome := Cancelled(InvalidTemplate);
      return;
    }
    var t := template.template;
    if answers.deeplKey == "" {
      outcome := Cancelled(NoDeepLKey);
      return;
    }
    if answers.googleKey == "" {
      outcome := Cancelled(NoGoogleKey);
      return;
    }
    var targets := TargetLanguages(files, templateLang);
    var kept, notTranslated := PartitionUnsupported(targets, svc.deeplLanguages(answers.deeplKey));
    var totalChars := CountCharacters(t) * |kept|;
    ghost var p := ConfirmPartition(targets, svc.deeplLanguages(answers.deeplKey));
    assert kept == p.0 && notTranslated == p.1;
    assert totalChars == CostEstimate(t, p.0);
    if !answers.approve {
      outcome := NotConfirmed(kept, notTranslated, totalChars);
      return;
    }
    var deferred, fallback;
    out, deferred, fallback := StartTranslation(folder, t, svc, answers.deeplKey, answers.googleKey, templateLang,
                                                kept, notTranslated, answers.fallbackKey, answers.approveFallback);
    outcome := TranslationRun(kept, deferred, totalChars, fallback);
  }

  // ---------------------------------------------------------------------------
  // The per-file loops of deepL_cleanup_mode and translate_from_key_mode

  /** A rewrite of existing language files in place, with what each loop
      fixed before it started. */
  datatype Rewrite =
    | CleanupPass(template: Template, shortKeys: seq<string>, svc: Services, googleKey: string,
                  deeplLangs: set<string>, templateLang: string)
    | ResumePass(template: Template, start: nat, svc: Services, googleKey: string, deeplKey: string,
                 googleLangs: set<string>, deeplLangs: set<string>, templateLang: string)
  {
    predicate WellFormed() {
      match this
      case CleanupPass(t, shortKeys, _, _, _, _) => shortKeys == ShortKeys(t)
      case ResumePass(t, start, _, _, _, _, _, _) => start <= |t.keys|
    }

    /** Whether the loop looks at file `f` at all. */
    predicate Selects(f: string) {
      var code := FirstDotPart(f);
      match this
      case CleanupPass(_, _, _, _, deeplLangs, templateLang) =>
        f != FileOf(templateLang) && EndsWith(f, ".json") && Upper(code) in deeplLangs
      case ResumePass(_, _, _, _, _, googleLangs, deeplLangs, templateLang) =>
        EndsWith(f, ".json") && code != templateLang && (Lower(code) in googleLangs || Upper(code) in deeplLangs)
    }

    /** The new content of a selected file whose bundle is `b`. */
    function Apply(f: string, b: Bundle): Bundle
      requires WellFormed()
    {
      var code := FirstDotPart(f);
      match this
      case CleanupPass(t, _, svc, googleKey, _, templateLang) =>
        Cleaned(b, t, GoogleTranslator(svc, googleKey, code, templateLang))
      case ResumePass(t, start, svc, googleKey, deeplKey, _, deeplLangs, templateLang) =>
        Merged(b, t, start, ResumeTranslator(svc, deeplKey, googleKey, deeplLangs, code, templateLang))
    }
  }

  /** The folder after a rewrite over the listing `files`;
      `RewrittenFilesMeaning` states what it holds. */
  function RewrittenFiles(folder: Folder, files: seq<string>, rw: Rewrite): (r: Folder)
    requires rw.WellFormed()
    ensures r.Keys == folder.Keys
    decreases |files|
  {
    if files == [] then folder
    else
      var r0 := RewrittenFiles(folder, files[..|files| - 1], rw);
      var f := files[|files| - 1];
      var content := ReadBundle(r0, f);
      if rw.Selects(f) && IsTruthy(content) then r0[f := Json(rw.Apply(f, content.value))] else r0
  }

  /** A selected file of the listing with a non-empty bundle gets the
      rewritten bundle, every other file keeps its content, and no file is
      added or removed. */
  lemma {:induction false} RewrittenFilesMeaning(folder: Folder, files: seq<string>, rw: Rewrite)
    requires rw.WellFormed() && Distinct(files)
    ensures var r := RewrittenFiles(folder, files, rw);
            forall f :: f in folder ==>
                 r[f] == if f in files && rw.Selects(f) && IsTruthy(ReadBundle(folder, f))
                         then Json(rw.Apply(f, ReadBundle(folder, f).value))
                         else folder[f]
    decreases |files|
  {
    if files != [] {
      var init := files[..|files| - 1];
      var f := files[|files| - 1];
      var r0 := RewrittenFiles(folder, init, rw);
      RewrittenFilesMeaning(folder, init, rw);
      assert f !in init;
      var c := ReadBundle(folder, f);
      assert ReadBundle(r0, f) == c;
      var r := RewrittenFiles(folder, files, rw);
      assert r == if rw.Selects(f) && IsTruthy(c) then r0[f := Json(rw.Apply(f, c.value))] else r0;
      forall g | g in folder
        ensures r[g] == if g in files && rw.Selects(g) && IsTruthy(ReadBundle(folder, g))
                        then Json(rw.Apply(g, ReadBundle(folder, g).value))
                        else folder[g]
      {
        if g != f {
          assert g in files <==> g in init;
        }
      }
    }
  }

  /** A rewrite that leaves every selected non-empty file as it is leaves
      the folder as it is. */
  lemma {:induction false} RewrittenFilesFixed(r: Folder, files: seq<string>, rw: Rewrite)
    requires rw.WellFormed()
    requires forall f :: f in files && rw.Selects(f) && IsTruthy(ReadBundle(r, f)) ==>
                         rw.Apply(f, ReadBundle(r, f).value) == ReadBundle(r, f).value
    ensures RewrittenFiles(r, files, rw) == r
    decreases |files|
  {
    if files != [] {
      var init := files[..|files| - 1];
      var f := files[|files| - 1];
      assert forall g :: g in init ==> g in files;
      RewrittenFilesFixed(r, init, rw);
      if rw.Selects(f) && IsTruthy(ReadBundle(r, f)) {
        assert r[f := Json(ReadBundle(r, f).value)] == r;
      }
    }
  }

  /** Rewriting a bundle twice gives what rewriting it once gave. */
  lemma ApplyIdempotent(rw: Rewrite, f: string, b: Bundle)
    requires rw.WellFormed()
    ensures rw.Apply(f, rw.Apply(f, b)) == rw.Apply(f, b)
  {
    var code := FirstDotPart(f);
    match rw
    case CleanupPass(t, _, svc, googleKey, _, templateLang) =>
      CleanedIdempotent(b, t, GoogleTranslator(svc, googleKey, code, templateLang));
    case ResumePass(t, start, svc, googleKey, deeplKey, _, deeplLangs, templateLang) =>
      MergedIdempotent(b, t, start, ResumeTranslator(svc, deeplKey, googleKey, deeplLangs, code, templateLang));
  }

  /** Running a rewriting mode a second time over the same listing, with the
      same answers and the same provider results, changes nothing. */
  lemma RewrittenFilesIdempotent(folder: Folder, files: seq<string>, rw: Rewrite)
    requires rw.WellFormed() && Distinct(files)
    ensures RewrittenFiles(RewrittenFiles(folder, files, rw), files, rw) == RewrittenFiles(folder, files, rw)
  {
    var r := RewrittenFiles(folder, files, rw);
    RewrittenFilesMeaning(folder, files, rw);
    forall f | f in files && rw.Selects(f) && IsTruthy(ReadBundle(r, f))
      ensures rw.Apply(f, ReadBundle(r, f).value) == ReadBundle(r, f).value
    {
      if IsTruthy(ReadBundle(folder, f)) {
        ApplyIdempotent(rw, f, ReadBundle(folder, f).value);
      }
    }
    RewrittenFilesFixed(r, files, rw);
  }

  lemma RewrittenStep(folder: Folder, files: seq<string>, rw: Rewrite, i: nat)
    requires rw.WellFormed() && i < |files|
    ensures RewrittenFiles(folder, files[..i + 1], rw)
            == var r0 := RewrittenFiles(folder, files[..i], rw);
               var content := ReadBundle(r0, files[i]);
               if rw.Selects(files[i]) && IsTruthy(content) then r0[files[i] := Json(rw.Apply(files[i], content.value))]
               else r0
  {
    assert files[..i + 1][..i] == files[..i];
  }

  /** One selected file: the cleanup loop over the short keys, or the merge
      from the start key. */
  method RewriteBundle(rw: Rewrite, f: string, b: Bundle) returns (r: Bundle)
    requires rw.WellFormed()
    ensures r == rw.Apply(f, b)
  {
    var code := FirstDotPart(f);
    match rw
    case CleanupPass(t, shortKeys, svc, googleKey, _, templateLang) =>
      r := Cleanup(b, t, shortKeys, GoogleTranslator(svc, googleKey, code, templateLang));
    case ResumePass(t, start, svc, googleKey, deeplKey, _, deeplLangs, templateLang) =>
      r := MergeFrom(b, t, start, ResumeTranslator(svc, deeplKey, googleKey, deeplLangs, code, templateLang));
  }

  /** The `for lang in os.listdir(...)` loop of both rewriting modes. */
  method RewriteFiles(folder: Folder, files: seq<string>, rw: Rewrite) returns (out: Folder)
    requires rw.WellFormed()
    ensures out == RewrittenFiles(folder, files, rw)
  {
    out := folder;
    var i := 0;
    while i < |files|
      invariant 0 <= i <= |files|
      invariant out == RewrittenFiles(folder, files[..i], rw)
    {
      var f := files[i];
      RewrittenStep(folder, files, rw, i);
      if rw.Selects(f) {
        var content := ReadBundle(out, f);
        if IsTruthy(content) {
          var b := RewriteBundle(rw, f, content.value);
          out := out[f := Json(b)];
        }
      }
      i := i + 1;
    }
    assert files[..i] == files;
  }

  /** `deepL_cleanup_mode`. */
  method CleanupMode(folder: Folder, files: seq<string>, templateLang: string, template: TemplateFile,
                     svc: Services, googleKey: string, deeplKey: string)
    returns (out: Folder, outcome: Outcome)
    ensures googleKey == "" ==> outcome == Cancelled(NoGoogleKey) && out == folder
    ensures googleKey != "" && template.Missing? ==> outcome == Cancelled(NoTemplate) && out == folder
    ensures googleKey != "" && template.Unreadable? ==> outcome == Cancelled(InvalidTemplate) && out == folder
    ensures googleKey != "" && template.Loaded? && deeplKey == "" ==> outcome == Cancelled(NoDeepLKey) && out == folder
    ensures googleKey != "" && template.Loaded? && deeplKey != "" ==>
              outcome == FilesRewritten
              && out == RewrittenFiles(folder, files, CleanupPass(template.template, ShortKeys(template.template), svc,
                                                                  googleKey, svc.deeplLanguages(deeplKey), templateLang))
  {
    out := folder;
    if googleKey == "" {
      outcome := Cancelled(NoGoogleKey);
      return;
    }
    if template.Missing? {
      outcome := Cancelled(NoTemplate);
      return;
    }
    if template.Unreadable? {
      outcome := Cancelled(InvalidTemplate);
      return;
    }
    var t := template.template;
    var shortKeys := ShortKeys(t);
    if deeplKey == "" {
      outcome := Cancelled(NoDeepLKey);
      return;
    }
    var deeplLangs := svc.deeplLanguages(deeplKey);
    out := RewriteFiles(folder, files, CleanupPass(t, shortKeys, svc, googleKey, deeplLangs, templateLang));
    outcome := FilesRewritten;
  }

  /** `translate_from_key_mode`. */
  method ResumeMode(folder: Folder, files: seq<string>, templateLang: string, template: TemplateFile,
                    svc: Services, googleKey: string, deeplKey: string, startKey: string)
    returns (out: Folder, outcome: Outcome)
    ensures googleKey == "" || deeplKey == "" ==> outcome == Cancelled(NoKeys) && out == folder
    ensures googleKey != "" && deeplKey != "" && template.Missing? ==> outcome == Cancelled(NoTemplate) && out == folder
    ensures googleKey != "" && deeplKey != "" && (template.Unreadable? || (template.Loaded? && template.template.IsEmpty())) ==>
              outcome == Cancelled(InvalidTemplate) && out == folder
    ensures googleKey != "" && deeplKey != "" && template.Loaded? && !template.template.IsEmpty()
            && (startKey == "" || startKey !in template.template.entries) ==>
              outcome == Cancelled(BadStartKey) && out == folder
    ensures googleKey != "" && deeplKey != "" && template.Loaded? && startKey != "" && startKey in template.template.entries ==>
              outcome == FilesRewritten
              && out == RewrittenFiles(folder, files,
                                       ResumePass(template.template, IndexOf(template.template.keys, startKey), svc,
                                                  googleKey, deeplKey, svc.googleLanguages(googleKey),
                                                  svc.deeplLanguages(deeplKey), templateLang))
  {
    out := folder;
    if googleKey == "" || deeplKey == "" {
      outcome := Cancelled(NoKeys);
      return;
    }
    var googleLangs := svc.googleLanguages(googleKey);
    var deeplLangs := svc.deeplLanguages(deeplKey);
    if template.Missing? {
      outcome := Cancelled(NoTemplate);
      return;
    }
    if template.Unreadable? || template.template.IsEmpty() {
      outcome := Cancelled(InvalidTemplate);
      return;
    }
    var t := template.template;
    if startKey == "" || startKey !in t.entries {
      outcome := Cancelled(BadStartKey);
      return;
    }
    var start := IndexOf(t.keys, startKey);
    out := RewriteFiles(folder, files, ResumePass(t, start, svc, googleKey, deeplKey, googleLangs, deeplLangs, templateLang));
    outcome := FilesRewritten;
  }

  // ---------------------------------------------------------------------------
  // What the rewriting modes promise about each file

  /** Cleanup never touches the template file; resume leaves it alone when
      the template code has no dot. */
  lemma TemplateFileUntouched(folder: Folder, files: seq<string>, rw: Rewrite)
    requires rw.WellFormed() && Distinct(files)
    requires rw.CleanupPass? || '.' !in rw.templateLang
    requires FileOf(rw.templateLang) in folder
    ensures RewrittenFiles(folder, files, rw)[FileOf(rw.templateLang)] == folder[FileOf(rw.templateLang)]
  {
    if rw.ResumePass? {
      LanguageOfFileOf(rw.templateLang);
    }
    RewrittenFilesMeaning(folder, files, rw);
  }

  /** Resume compares the first dot part of a file name with the whole
      template code, so it selects the template's own file exactly when the
      code has a dot and a service lists that code's first part. */
  lemma ResumeSelectsTemplateFile(rw: Rewrite)
    requires rw.ResumePass?
    ensures var tl := rw.templateLang;
            var code := FirstDotPart(tl);
            rw.Selects(FileOf(tl)) <==> '.' in tl && (Lower(code) in rw.googleLangs || Upper(code) in rw.deeplLangs)
  {
    var tl := rw.templateLang;
    var f := FileOf(tl);
    assert f[|f| - 5..] == ".json";
    if '.' in tl {
      FirstDotPartAppend(tl, ".json");
      assert FirstDotPart(tl) != tl;
    } else {
      LanguageOfFileOf(tl);
    }
  }

  /** Cleanup of one DeepL-supported file: its keys keep their places, the
      short keys are reassigned to Google's result and the rest are left
      alone. */
  lemma CleanupRewritesShortKeysOnly(folder: Folder, files: seq<string>, rw: Rewrite, f: string, k: string)
    requires rw.CleanupPass? && rw.WellFormed() && Distinct(files)
    requires f in files && rw.Selects(f) && IsTruthy(ReadBundle(folder, f))
    requires k in ReadBundle(folder, f).value.entries
    ensures var b := ReadBundle(folder, f).value;
            var after := rw.Apply(f, b);
            var t := rw.template;
            && RewrittenFiles(folder, files, rw)[f] == Json(after)
            && after.keys == b.keys
            && k in after.entries
            && (k in t.entries && IsShort(t.entries[k]) ==>
                  after.entries[k] == rw.svc.google(rw.googleKey, t.entries[k], FirstDotPart(f), rw.templateLang))
            && (!(k in t.entries && IsShort(t.entries[k])) ==> after.entries[k] == b.entries[k])
  {
    var b := ReadBundle(folder, f).value;
    RewrittenFilesMeaning(folder, files, rw);
    CleanedTouchesOnlyShortKeys(b, rw.template, GoogleTranslator(rw.svc, rw.googleKey, FirstDotPart(f), rw.templateLang), k);
  }

  /** Resume of one selected file: keys before the start key are untouched,
      and from it on a key takes the routed translation exactly when that is
      truthy. */
  lemma ResumeOverwritesFromStart(folder: Folder, files: seq<string>, rw: Rewrite, f: string, i: nat)
    requires rw.ResumePass? && rw.WellFormed() && Distinct(files)
    requires f in files && rw.Selects(f) && IsTruthy(ReadBundle(folder, f))
    requires i < |rw.template.keys|
    ensures var b := ReadBundle(folder, f).value;
            var after := rw.Apply(f, b);
            var t := rw.template;
            var k := t.keys[i];
            var tr := ResumeTranslate(rw.svc, rw.deeplKey, rw.googleKey, rw.deeplLangs, t.entries[k],
                                      FirstDotPart(f), rw.templateLang);
            && RewrittenFiles(folder, files, rw)[f] == Json(after)
            && if i < rw.start || !Truthy(tr)
               then (k in after.entries <==> k in b.entries) && (k in b.entries ==> after.entries[k] == b.entries[k])
               else k in after.entries && after.entries[k] == tr
  {
    var b := ReadBundle(folder, f).value;
    var t := rw.template;
    var tr := ResumeTranslator(rw.svc, rw.deeplKey, rw.googleKey, rw.deeplLangs, FirstDotPart(f), rw.templateLang);
    RewrittenFilesMeaning(folder, files, rw);
    if i < rw.start {
      assert t.keys[..rw.start][i] == t.keys[i];
      MergedKeepsOthers(b, t, rw.start, tr, t.keys[i]);
    } else {
      MergedOverwrites(b, t, rw.start, tr, i);
    }
  }
}
