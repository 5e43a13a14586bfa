/** The main block of the scraper: every selected school's page is visited,
    its information panel is polled for, parsed, and the school enriched with
    the parsed fields is appended to the results, which are written back after
    every append. The browser is replaced by a script: for each school, the
    outcomes of its navigation attempts and of its panel polls. */
module Scraper {
  import opened Wrappers
  import opened Records
  import opened Text
  import opened Retry
  import opened Parsers
  import opened Selection

  /** What the browser does while one school is processed. */
  datatype Visit = Visit(navigation: seq<bool>, polls: seq<Poll<Document>>)

  /** The script of one visit is long enough for both retry loops. */
  predicate Scripted(v: Visit)
  {
    NavigationRetries <= |v.navigation| && InfoRetries <= |v.polls|
  }

  /** A page the loop visited: the school's `main_url`, and what `get_url` did. */
  datatype Page = Page(mainUrl: Value, navigation: Navigation)

  /** How the loop ended: after the last school, or on an exception. Both the
      `NoSuchWindowException` handler and any other exception leave the loop
      for good; the results written so far stay written. */
  datatype Halt = Finished | Stopped(error: Error)

  /** The results list after the loop (also the content of the results file,
      which is rewritten after every append), how it ended, and the pages it
      visited. */
  datatype Outcome = Outcome(results: seq<Record>, halt: Halt, pages: seq<Page>)

  /** `r` is `school` with parsed fields merged over it: every field of the
      school is still there, and every field the parsers do not produce
      keeps the school's value. */
  predicate Enriched(r: Record, school: Record)
  {
    && (forall key :: key in school ==> key in r)
    && (forall key :: key in r && key !in ParsedKeys ==> key in school && r[key] == school[key])
  }

  /** `{**school, **res}` for parsed fields `res`. */
  lemma MergeEnriches(school: Record, res: Record)
    requires res.Keys <= ParsedKeys
    ensures Enriched(school + res, school)
  {
  }

  /** The parsers never produce `main_url`, so an enriched record keeps it. */
  lemma EnrichedKeepsMainUrl(r: Record, school: Record)
    requires Enriched(r, school) && MainUrl in school
    ensures MainUrl in r && r[MainUrl] == school[MainUrl]
  {
    assert MainUrl !in ParsedKeys by {
      assert MainUrl[0] == 'm';
    }
  }

  /** The panel parser the loop calls: `parse_info` in the scraper. */
  type Parser = Document -> Result<Record, Error>

  /** The parser only ever adds fields among the parsed keys, and never
      raises the `KeyError` of a missing `main_url`. */
  ghost predicate ParsesFields(parse: Parser)
  {
    forall d :: (parse(d).Success? ==> parse(d).value.Keys <= ParsedKeys)
                && (parse(d).Failure? ==> !parse(d).error.KeyError?)
  }

  /** `parse_info` is such a parser. */
  lemma ParseInfoParsesFields(u: Unicode)
    ensures ParsesFields(d => ParseInfo(u, d))
  {
  }

  /** What the loop body does with one school: it goes on to the next school
      after opening the page and appending at most one record, or it ends the
      loop, after opening the page or, without a `main_url`, before. */
  datatype Step = Continue(page: Page, added: seq<Record>) | Quit(pages: seq<Page>, error: Error)

  /** The loop goes on after this school: it has a `main_url`, and its panel
      either never shows up or shows up and parses. */
  predicate Passes(parse: Parser, school: Record, visit: Visit)
    requires Scripted(visit)
  {
    && MainUrl in school
    && match PollInfo(visit.polls, InfoRetries)
       case Absent => true
       case Found(doc) => parse(doc).Success?
       case Crashed => false
  }

  /** The loop ends with `error` on this school's page: the polling raised
      (`PanelWaitFailed`), or the panel showed up and `parse_info` raised. */
  predicate FailsWith(parse: Parser, school: Record, visit: Visit, error: Error)
    requires Scripted(visit)
  {
    && MainUrl in school
    && match PollInfo(visit.polls, InfoRetries)
       case Absent => false
       case Found(doc) => parse(doc) == Failure(error)
       case Crashed => error == PanelWaitFailed
  }

  /** What the loop appends for one opened page: the school merged with the
      parsed panel when the panel shows up and parses, nothing otherwise. */
  function Added(parse: Parser, school: Record, visit: Visit): (rs: seq<Record>)
    requires Scripted(visit)
    ensures |rs| <= 1
  {
    match PollInfo(visit.polls, InfoRetries)
    case Found(doc) => if parse(doc).Success? then [school + parse(doc).value] else []
    case _ => []
  }

  /** The body of the main loop for one school: `open_page`, the polling loop
      (a panel that never shows up skips the school), `parse_info`, and the
      append of `{**school, **res}`. */
  function Process(parse: Parser, school: Record, visit: Visit): (r: Step)
    requires ParsesFields(parse) && Scripted(visit)
    ensures MainUrl !in school ==> r == Quit([], KeyError(MainUrl))
    ensures MainUrl in school ==>
              var page := Page(school[MainUrl], GetUrl(visit.navigation, NavigationRetries));
              var p := PollInfo(visit.polls, InfoRetries);
              && (p.Absent? ==> r == Continue(page, []))
              && (p.Crashed? ==> r == Quit([page], PanelWaitFailed))
              && (p.Found? && parse(p.panel).Success? ==> r == Continue(page, [school + parse(p.panel).value]))
              && (p.Found? && parse(p.panel).Failure? ==> r == Quit([page], parse(p.panel).error))
    ensures r.Continue? <==> Passes(parse, school, visit)
    ensures r.Continue? ==> r.added == Added(parse, school, visit)
                            && forall k :: 0 <= k < |r.added| ==> Enriched(r.added[k], school)
    ensures r.Quit? && r.pages != [] ==> FailsWith(parse, school, visit, r.error)
    ensures r.Quit? ==> (r.error == KeyError(MainUrl) <==> MainUrl !in school)
  {
    if MainUrl !in school then Quit([], KeyError(MainUrl))
    else
      var page := Page(school[MainUrl], GetUrl(visit.navigation, NavigationRetries));
      match PollInfo(visit.polls, InfoRetries)
      case Crashed => Quit([page], PanelWaitFailed)
      case Absent => Continue(page, [])
      case Found(doc) =>
        match parse(doc)
        case Failure(e) => Quit([page], e)
        case Success(res) =>
          MergeEnriches(school, res);
          Continue(page, [school + res])
  }

  /** The records the loop appends for the given opened schools, in order. */
  function Appended(parse: Parser, schools: seq<Record>, visits: seq<Visit>): (rs: seq<Record>)
    requires |schools| <= |visits|
    requires forall i :: 0 <= i < |schools| ==> Scripted(visits[i])
    ensures |rs| <= |schools|
    decreases |schools|
  {
    if schools == [] then []
    else
      assert Scripted(visits[0]);
      assert forall i :: 0 <= i < |schools| - 1 ==> visits[1..][i] == visits[i + 1];
      Added(parse, schools[0], visits[0]) + Appended(parse, schools[1..], visits[1..])
  }

  /** `r` is one of the first `n` schools merged with parsed fields. */
  ghost predicate EnrichedFromOne(r: Record, schools: seq<Record>, n: nat)
  {
    exists i :: 0 <= i < n && i < |schools| && Enriched(r, schools[i])
  }

  /** A record appended for a school is that school merged with parsed fields. */
  lemma AddedEnriched(parse: Parser, school: Record, visit: Visit)
    requires ParsesFields(parse) && Scripted(visit)
    ensures forall k :: 0 <= k < |Added(parse, school, visit)| ==> Enriched(Added(parse, school, visit)[k], school)
  {
    if Added(parse, school, visit) != [] {
      var doc := PollInfo(visit.polls, InfoRetries).panel;
      MergeEnriches(school, parse(doc).value);
    }
  }

  /** Every appended record is one of the schools merged with parsed fields. */
  lemma {:induction false} AppendedEnriched(parse: Parser, schools: seq<Record>, visits: seq<Visit>)
    requires ParsesFields(parse) && |schools| <= |visits|
    requires forall i :: 0 <= i < |schools| ==> Scripted(visits[i])
    ensures forall k :: 0 <= k < |Appended(parse, schools, visits)| ==>
              exists i :: 0 <= i < |schools| && Enriched(Appended(parse, schools, visits)[k], schools[i])
    decreases |schools|
  {
    if schools != [] {
      assert Scripted(visits[0]);
      var first := Added(parse, schools[0], visits[0]);
      var rest := Appended(parse, schools[1..], visits[1..]);
      assert forall i :: 0 <= i < |schools| - 1 ==> schools[1..][i] == schools[i + 1] && visits[1..][i] == visits[i + 1];
      AppendedEnriched(parse, schools[1..], visits[1..]);
      var xs := Appended(parse, schools, visits);
      assert xs == first + rest;
      forall k | 0 <= k < |xs|
        ensures exists i :: 0 <= i < |schools| && Enriched(xs[k], schools[i])
      {
        if k < |first| {
          AddedEnriched(parse, schools[0], visits[0]);
          assert Enriched(xs[k], schools[0]);
        } else {
          assert xs[k] == rest[k - |first|];
          var i :| 0 <= i < |schools| - 1 && Enriched(rest[k - |first|], schools[1..][i]);
          assert Enriched(xs[k], schools[i + 1]);
        }
      }
    } else {
      assert Appended(parse, schools, visits) == [];
    }
  }

  /** The loop opened the pages of the first `|pages|` schools, in order,
      each at the school's `main_url`. */
  ghost predicate OpensInOrder(schools: seq<Record>, visits: seq<Visit>, pages: seq<Page>)
    requires |schools| <= |visits|
    requires forall i {:trigger visits[i]} :: 0 <= i < |schools| ==> Scripted(visits[i])
  {
    && |pages| <= |schools|
    && forall i :: 0 <= i < |pages| ==>
         MainUrl in schools[i] && Scripted(visits[i])
         && pages[i] == Page(schools[i][MainUrl], GetUrl(visits[i].navigation, NavigationRetries))
  }

  /** The loop ended as `halt` says after opening `n` pages: it finishes only
      after the last school; a `KeyError` stop means the next school has no
      `main_url`; any other stop is the error of the last opened page. Every
      other opened page passes. */
  ghost predicate HaltsAfter(parse: Parser, schools: seq<Record>, visits: seq<Visit>, halt: Halt, n: nat)
    requires n <= |schools| <= |visits|
    requires forall i {:trigger visits[i]} :: 0 <= i < |schools| ==> Scripted(visits[i])
  {
    && (halt.Finished? ==> n == |schools|)
    && (halt == Stopped(KeyError(MainUrl)) ==> n < |schools| && MainUrl !in schools[n])
    && (halt.Stopped? && halt.error != KeyError(MainUrl) ==>
          0 < n && FailsWith(parse, schools[n - 1], visits[n - 1], halt.error))
    && var passed := if halt.Stopped? && halt.error != KeyError(MainUrl) then n - 1 else n;
       forall i :: 0 <= i < passed ==> Passes(parse, schools[i], visits[i])
  }

  /** What the main loop leaves behind, given the schools, their scripts and
      the results list it starts from: the pages of a prefix of the schools,
      opened in order; the saved list followed by what each opened page
      yields (`Added`), in order; and the way it ended. */
  ghost predicate LoopOutcome(parse: Parser, schools: seq<Record>, visits: seq<Visit>, saved: seq<Record>, o: Outcome)
    requires |schools| <= |visits|
    requires forall i {:trigger visits[i]} :: 0 <= i < |schools| ==> Scripted(visits[i])
  {
    && OpensInOrder(schools, visits, o.pages)
    && o.results == saved + Appended(parse, schools[..|o.pages|], visits)
    && HaltsAfter(parse, schools, visits, o.halt, |o.pages|)
  }

  /** The `for i, school in enumerate(schools)` loop of the main block, with
      `saved` the results list it appends to and `visits[i]` the browser's
      script for `schools[i]`. */
  function Run(parse: Parser, schools: seq<Record>, visits: seq<Visit>, saved: seq<Record>): (o: Outcome)
    requires ParsesFields(parse) && |schools| <= |visits|
    requires forall i {:trigger visits[i]} :: 0 <= i < |visits| ==> Scripted(visits[i])
    ensures LoopOutcome(parse, schools, visits, saved, o)
    decreases |schools|
  {
    if schools == [] then Outcome(saved, Finished, [])
    else
      assert Scripted(visits[0]);
      match Process(parse, schools[0], visits[0])
      case Quit(pages, e) =>
        QuitOutcome(parse, schools, visits, saved, pages, e);
        Outcome(saved, Stopped(e), pages)
      case Continue(page, added) =>
        var rest := Run(parse, schools[1..], visits[1..], saved + added);
        ContinueOutcome(parse, schools, visits, saved, page, added, rest);
        Outcome(rest.results, rest.halt, [page] + rest.pages)
  }

  /** The loop ends at the first school when its step quits. */
  lemma QuitOutcome(parse: Parser, schools: seq<Record>, visits: seq<Visit>, saved: seq<Record>, pages: seq<Page>, e: Error)
    requires ParsesFields(parse) && schools != [] && |schools| <= |visits|
    requires forall i :: 0 <= i < |schools| ==> Scripted(visits[i])
    requires Process(parse, schools[0], visits[0]) == Quit(pages, e)
    ensures LoopOutcome(parse, schools, visits, saved, Outcome(saved, Stopped(e), pages))
  {
    var o := Outcome(saved, Stopped(e), pages);
    if pages != [] {
      assert Added(parse, schools[0], visits[0]) == [];
      assert schools[..1][1..] == [];
      assert Appended(parse, schools[..1], visits) == [];
    } else {
      assert schools[..0] == [];
    }
  }

  /** One step of the loop: when the first school's step goes on, the
      outcome of the rest of the loop, with the first page put in front,
      is the outcome of the whole loop. */
  lemma ContinueOutcome(parse: Parser, schools: seq<Record>, visits: seq<Visit>, saved: seq<Record>,
                        page: Page, added: seq<Record>, rest: Outcome)
    requires ParsesFields(parse) && schools != [] && |schools| <= |visits|
    requires forall i {:trigger visits[i]} :: 0 <= i < |visits| ==> Scripted(visits[i])
    requires Process(parse, schools[0], visits[0]) == Continue(page, added)
    requires LoopOutcome(parse, schools[1..], visits[1..], saved + added, rest)
    ensures LoopOutcome(parse, schools, visits, saved, Outcome(rest.results, rest.halt, [page] + rest.pages))
  {
    var n := |rest.pages|;
    OpensStep(schools, visits, page, rest.pages);
    AppendedStep(parse, schools, visits, n);
    AppendAssoc(saved, added, Appended(parse, schools[1..][..n], visits[1..]));
    HaltStep(parse, schools, visits, rest.halt, n);
  }

  /** Opening the first school's page in front of the pages the rest of the
      loop opened keeps them in school order. */
  lemma OpensStep(schools: seq<Record>, visits: seq<Visit>, page: Page, pages: seq<Page>)
    requires schools != [] && |schools| <= |visits|
    requires forall i {:trigger visits[i]} :: 0 <= i < |schools| ==> Scripted(visits[i])
    requires MainUrl in schools[0] && Scripted(visits[0])
    requires page == Page(schools[0][MainUrl], GetUrl(visits[0].navigation, NavigationRetries))
    requires OpensInOrder(schools[1..], visits[1..], pages)
    ensures OpensInOrder(schools, visits, [page] + pages)
  {
    forall i | 1 <= i < |pages| + 1
      ensures MainUrl in schools[i] && Scripted(visits[i])
              && ([page] + pages)[i] == Page(schools[i][MainUrl], GetUrl(visits[i].navigation, NavigationRetries))
    {
      assert schools[1..][i - 1] == schools[i] && visits[1..][i - 1] == visits[i];
    }
  }

  /** A first school that passes does not change how the rest of the loop
      ended, one page later. */
  lemma HaltStep(parse: Parser, schools: seq<Record>, visits: seq<Visit>, halt: Halt, n: nat)
    requires n < |schools| <= |visits|
    requires forall i {:trigger visits[i]} :: 0 <= i < |schools| ==> Scripted(visits[i])
    requires Passes(parse, schools[0], visits[0])
    requires HaltsAfter(parse, schools[1..], visits[1..], halt, n)
    ensures HaltsAfter(parse, schools, visits, halt, n + 1)
  {
    if halt == Stopped(KeyError(MainUrl)) {
      assert schools[1..][n] == schools[n + 1];
    }
    if halt.Stopped? && halt.error != KeyError(MainUrl) {
      assert schools[1..][n - 1] == schools[n] && visits[1..][n - 1] == visits[n];
    }
    var passed := if halt.Stopped? && halt.error != KeyError(MainUrl) then n else n + 1;
    forall i | 1 <= i < passed
      ensures Passes(parse, schools[i], visits[i])
    {
      assert schools[1..][i - 1] == schools[i] && visits[1..][i - 1] == visits[i];
    }
  }

  /** The records appended for the first `n + 1` schools: the first school's,
      then those of the next `n`. */
  lemma AppendedStep(parse: Parser, schools: seq<Record>, visits: seq<Visit>, n: nat)
    requires n < |schools| <= |visits|
    requires forall i {:trigger visits[i]} :: 0 <= i < |schools| ==> Scripted(visits[i])
    ensures Scripted(visits[0])
    ensures Appended(parse, schools[..n + 1], visits)
            == Added(parse, schools[0], visits[0]) + Appended(parse, schools[1..][..n], visits[1..])
  {
    assert schools[..n + 1][1..] == schools[1..][..n];
  }

  lemma AppendAssoc(a: seq<Record>, b: seq<Record>, c: seq<Record>)
    ensures (a + b) + c == a + (b + c)
  {
  }

  /** What follows from the outcome of the loop: the saved records stay in
      front, at most one record is appended per opened page, and every
      appended record is the school of an opened page merged with parsed
      fields. */
  lemma RunAppends(parse: Parser, schools: seq<Record>, visits: seq<Visit>, saved: seq<Record>, o: Outcome)
    requires ParsesFields(parse) && |schools| <= |visits|
    requires forall i {:trigger visits[i]} :: 0 <= i < |visits| ==> Scripted(visits[i])
    requires o == Run(parse, schools, visits, saved)
    ensures |saved| <= |o.results| && o.results[..|saved|] == saved
    ensures |o.results| - |saved| <= |o.pages|
    ensures forall k :: |saved| <= k < |o.results| ==> EnrichedFromOne(o.results[k], schools, |o.pages|)
  {
    var visited := schools[..|o.pages|];
    var xs := Appended(parse, visited, visits);
    AppendedEnriched(parse, visited, visits);
    SavedThenEnriched(saved, xs, schools, visited, o.results);
  }

  /** The saved list followed by records each enriched from one of the
      first schools. */
  lemma SavedThenEnriched(saved: seq<Record>, xs: seq<Record>, schools: seq<Record>, visited: seq<Record>, results: seq<Record>)
    requires |visited| <= |schools| && visited == schools[..|visited|]
    requires results == saved + xs && |xs| <= |visited|
    requires forall k :: 0 <= k < |xs| ==> exists i :: 0 <= i < |visited| && Enriched(xs[k], visited[i])
    ensures |saved| <= |results| && results[..|saved|] == saved
    ensures |results| - |saved| <= |visited|
    ensures forall k :: |saved| <= k < |results| ==> EnrichedFromOne(results[k], schools, |visited|)
  {
    forall k | |saved| <= k < |results|
      ensures EnrichedFromOne(results[k], schools, |visited|)
    {
      assert results[k] == xs[k - |saved|];
      var j :| 0 <= j < |visited| && Enriched(xs[k - |saved|], visited[j]);
      assert visited[j] == schools[j];
      assert Enriched(results[k], schools[j]);
    }
    assert results[..|saved|] == saved;
  }

  /** A crash or a parse error ends the loop: when every school before
      `schools[i]` passes and `schools[i]` fails with `e`, the loop stops with
      `e` right after opening page `i`, having appended what the earlier
      pages yielded. */
  lemma RunStopsAtFirstFailure(parse: Parser, schools: seq<Record>, visits: seq<Visit>, saved: seq<Record>, i: nat, e: Error)
    requires ParsesFields(parse) && |schools| <= |visits|
    requires forall j {:trigger visits[j]} :: 0 <= j < |visits| ==> Scripted(visits[j])
    requires i < |schools|
    requires forall j :: 0 <= j < i ==> Passes(parse, schools[j], visits[j])
    requires FailsWith(parse, schools[i], visits[i], e)
    ensures Run(parse, schools, visits, saved).halt == Stopped(e)
    ensures |Run(parse, schools, visits, saved).pages| == i + 1
    ensures Run(parse, schools, visits, saved).results == saved + Appended(parse, schools[..i + 1], visits)
  {
    var o := Run(parse, schools, visits, saved);
    HaltsAtFirstFailure(parse, schools, visits, o.halt, |o.pages|, i, e);
  }

  /** The ending `HaltsAfter` describes is the first failure. */
  lemma HaltsAtFirstFailure(parse: Parser, schools: seq<Record>, visits: seq<Visit>, halt: Halt, n: nat, i: nat, e: Error)
    requires n <= |schools| <= |visits|
    requires forall j {:trigger visits[j]} :: 0 <= j < |schools| ==> Scripted(visits[j])
    requires HaltsAfter(parse, schools, visits, halt, n)
    requires i < |schools|
    requires forall j :: 0 <= j < i ==> Passes(parse, schools[j], visits[j])
    requires FailsWith(parse, schools[i], visits[i], e)
    ensures halt == Stopped(e) && n == i + 1
  {
    if halt.Finished? || halt == Stopped(KeyError(MainUrl)) {
      assert false;
    } else if n - 1 != i {
      assert false;
    }
  }

  /** Whether navigation succeeds changes nothing but the record of the
      attempts: `get_url` swallows every driver error, so two scripts with the
      same poll answers produce the same results and the same ending. */
  lemma {:induction false} RunIgnoresNavigation(parse: Parser, schools: seq<Record>, visits: seq<Visit>, visits': seq<Visit>, saved: seq<Record>)
    requires ParsesFields(parse) && |schools| <= |visits| && |visits| == |visits'|
    requires forall i {:trigger visits[i]} :: 0 <= i < |visits| ==> Scripted(visits[i])
    requires forall i {:trigger visits'[i]} :: 0 <= i < |visits'| ==> Scripted(visits'[i])
    requires forall i :: 0 <= i < |visits| ==> visits[i].polls == visits'[i].polls
    ensures Run(parse, schools, visits, saved).results == Run(parse, schools, visits', saved).results
    ensures Run(parse, schools, visits, saved).halt == Run(parse, schools, visits', saved).halt
    ensures |Run(parse, schools, visits, saved).pages| == |Run(parse, schools, visits', saved).pages|
    decreases |schools|
  {
    if schools != [] {
      assert Scripted(visits[0]) && Scripted(visits'[0]);
      assert visits[0].polls == visits'[0].polls;
      var p := Process(parse, schools[0], visits[0]);
      var p' := Process(parse, schools[0], visits'[0]);
      assert p.Quit? <==> p'.Quit?;
      if p.Continue? {
        assert p.added == p'.added;
        assert forall i :: 0 <= i < |visits| - 1 ==> visits[1..][i] == visits[i + 1] && visits'[1..][i] == visits'[i + 1];
        RunIgnoresNavigation(parse, schools[1..], visits[1..], visits'[1..], saved + p.added);
      } else {
        assert p == Quit(p.pages, p.error) && p' == Quit(p'.pages, p.error);
      }
    }
  }

  /** When the information panel never shows up on any page, every school is
      skipped: nothing is appended and the loop runs to its end. */
  lemma {:induction false} RunPanelNeverShown(parse: Parser, schools: seq<Record>, visits: seq<Visit>, saved: seq<Record>)
    requires ParsesFields(parse) && |schools| <= |visits|
    requires forall i {:trigger visits[i]} :: 0 <= i < |visits| ==> Scripted(visits[i])
    requires forall i :: 0 <= i < |schools| ==> MainUrl in schools[i]
    requires forall i, t :: 0 <= i < |visits| && 0 <= t < InfoRetries && t < |visits[i].polls| ==> visits[i].polls[t].NotShown?
    ensures Run(parse, schools, visits, saved).results == saved
    ensures Run(parse, schools, visits, saved).halt == Finished
    decreases |schools|
  {
    if schools != [] {
      assert Scripted(visits[0]);
      assert PollInfo(visits[0].polls, InfoRetries).Absent?;
      assert forall i :: 0 <= i < |visits| - 1 ==> visits[1..][i] == visits[i + 1];
      RunPanelNeverShown(parse, schools[1..], visits[1..], saved);
    }
  }

  /** The panel shows up within `RETRIES_INFO` polls, and it parses. */
  predicate PanelParses(parse: Parser, v: Visit)
  {
    && Scripted(v)
    && PollInfo(v.polls, InfoRetries).Found?
    && parse(PollInfo(v.polls, InfoRetries).panel).Success?
  }

  /** The records a loop appends when every panel shows up and parses: each
      school merged with its parsed fields, in order. */
  function Enrichments(parse: Parser, schools: seq<Record>, visits: seq<Visit>): (rs: seq<Record>)
    requires |schools| <= |visits|
    requires forall i :: 0 <= i < |schools| ==> PanelParses(parse, visits[i])
    ensures |rs| == |schools|
    decreases |schools|
  {
    if schools == [] then []
    else
      assert PanelParses(parse, visits[0]);
      assert forall i :: 0 <= i < |schools| - 1 ==> visits[1..][i] == visits[i + 1];
      [schools[0] + parse(PollInfo(visits[0].polls, InfoRetries).panel).value] + Enrichments(parse, schools[1..], visits[1..])
  }

  /** When every page shows its panel within `RETRIES_INFO` polls and every
      panel parses, the loop appends one enriched record per school, in
      order, and runs to its end. */
  lemma {:induction false} RunAllParsed(parse: Parser, schools: seq<Record>, visits: seq<Visit>, saved: seq<Record>)
    requires ParsesFields(parse) && |schools| <= |visits|
    requires forall i {:trigger visits[i]} :: 0 <= i < |visits| ==> Scripted(visits[i])
    requires forall i :: 0 <= i < |schools| ==> MainUrl in schools[i]
    requires forall i :: 0 <= i < |schools| ==> PanelParses(parse, visits[i])
    ensures Run(parse, schools, visits, saved).halt == Finished
    ensures Run(parse, schools, visits, saved).results == saved + Enrichments(parse, schools, visits)
    decreases |schools|
  {
    if schools != [] {
      assert Scripted(visits[0]) && PanelParses(parse, visits[0]);
      var first := schools[0] + parse(PollInfo(visits[0].polls, InfoRetries).panel).value;
      var saved' := saved + [first];
      assert Process(parse, schools[0], visits[0]).added == [first];
      var schools', visits' := schools[1..], visits[1..];
      assert forall i :: 0 <= i < |schools'| ==> schools'[i] == schools[i + 1] && visits'[i] == visits[i + 1];
      RunAllParsed(parse, schools', visits', saved');
      assert Enrichments(parse, schools, visits) == [first] + Enrichments(parse, schools', visits');
      AppendAfter(saved, first, Enrichments(parse, schools', visits'));
    }
  }

  lemma AppendAfter(a: seq<Record>, x: Record, b: seq<Record>)
    ensures (a + [x]) + b == a + ([x] + b)
  {
  }

  /** The results list never gets two records with the same `main_url`, as
      long as the schools to visit have distinct `main_url` values that no
      saved record has — which is what `load_schools` guarantees. */
  lemma RunKeepsMainUrlsDistinct(parse: Parser, schools: seq<Record>, visits: seq<Visit>, saved: seq<Record>)
    requires ParsesFields(parse) && |schools| <= |visits|
    requires forall i {:trigger visits[i]} :: 0 <= i < |visits| ==> Scripted(visits[i])
    requires DistinctMainUrls(saved) && DistinctMainUrls(schools)
    requires forall i :: 0 <= i < |schools| ==> schools[i][MainUrl] !in MainUrls(saved)
    ensures DistinctMainUrls(Run(parse, schools, visits, saved).results)
  {
    var o := Run(parse, schools, visits, saved);
    var visited := schools[..|o.pages|];
    assert forall i :: 0 <= i < |visited| ==> visited[i] == schools[i];
    AppendedKeepsDistinct(parse, visited, visits, saved);
  }

  /** The record one page yields carries the school's `main_url`, so a
      school with an unsaved `main_url` keeps the saved values distinct. */
  lemma AddedKeepsDistinct(parse: Parser, school: Record, visit: Visit, saved: seq<Record>)
    requires ParsesFields(parse) && Scripted(visit)
    requires DistinctMainUrls(saved) && MainUrl in school && school[MainUrl] !in MainUrls(saved)
    ensures DistinctMainUrls(saved + Added(parse, school, visit))
    ensures forall v :: v in MainUrls(saved + Added(parse, school, visit)) ==> v in MainUrls(saved) || v == school[MainUrl]
  {
    var added := Added(parse, school, visit);
    var saved' := saved + added;
    if added != [] {
      AddedEnriched(parse, school, visit);
      EnrichedKeepsMainUrl(added[0], school);
      assert saved' == saved + [added[0]];
      assert forall k :: 0 <= k < |saved| ==> saved'[k] == saved[k];
    } else {
      assert saved' == saved;
    }
  }

  /** Appending what the opened pages yield to a list of distinct `main_url`
      values keeps them distinct, when the schools' values are distinct and
      unsaved. */
  lemma {:induction false} AppendedKeepsDistinct(parse: Parser, schools: seq<Record>, visits: seq<Visit>, saved: seq<Record>)
    requires ParsesFields(parse) && |schools| <= |visits|
    requires forall i {:trigger visits[i]} :: 0 <= i < |schools| ==> Scripted(visits[i])
    requires DistinctMainUrls(saved) && DistinctMainUrls(schools)
    requires forall i :: 0 <= i < |schools| ==> schools[i][MainUrl] !in MainUrls(saved)
    ensures DistinctMainUrls(saved + Appended(parse, schools, visits))
    decreases |schools|
  {
    if schools == [] {
      assert saved + Appended(parse, schools, visits) == saved;
    } else {
      assert Scripted(visits[0]);
      var added := Added(parse, schools[0], visits[0]);
      var saved' := saved + added;
      AddedKeepsDistinct(parse, schools[0], visits[0], saved);
      assert forall i :: 0 <= i < |schools| - 1 ==> schools[1..][i] == schools[i + 1] && visits[1..][i] == visits[i + 1];
      AppendedKeepsDistinct(parse, schools[1..], visits[1..], saved');
      var rest := Appended(parse, schools[1..], visits[1..]);
      assert Appended(parse, schools, visits) == added + rest;
      AppendAssoc(saved, added, rest);
    }
  }

  /** The whole scrape of one register: `load_schools`, then the main loop
      over the schools it selects, appending to the saved results. */
  function Scrape(u: Unicode, register: seq<Record>, saved: seq<Record>, visits: seq<Visit>): (r: Result<Outcome, Error>)
    requires |register| <= |visits|
    requires forall i {:trigger visits[i]} :: 0 <= i < |visits| ==> Scripted(visits[i])
    ensures r.Success? <==> EligibleUrlsHashable(register) && UrlsHashable(saved)
    ensures r.Failure? ==> r.error == Unhashable || r.error == KeyError(MainUrl)
    ensures r.Failure? && r.error == KeyError(MainUrl) ==> exists k :: 0 <= k < |saved| && MainUrl !in saved[k]
    ensures r.Success? ==> |saved| <= |r.value.results| && r.value.results[..|saved|] == saved
    ensures r.Success? ==> forall k :: |saved| <= k < |r.value.results| ==>
                             MainUrl in r.value.results[k] && r.value.results[k][MainUrl] !in MainUrls(saved)
    ensures r.Success? && DistinctMainUrls(saved) ==> DistinctMainUrls(r.value.results)
    ensures r.Success? ==> UrlsHashable(r.value.results)
    ensures r.Success? ==> LoadSchools(register, saved).Success?
                           && LoopOutcome(d => ParseInfo(u, d), LoadSchools(register, saved).value, visits, saved, r.value)
  {
    var schools :- LoadSchools(register, saved);
    var parse: Parser := d => ParseInfo(u, d);
    ParseInfoParsesFields(u);
    var o := Run(parse, schools, visits, saved);
    RunAppends(parse, schools, visits, saved, o);
    RunAppendsUnsaved(parse, schools, visits, saved, o);
    RunAppendsHashable(parse, schools, visits, saved, o);
    assert DistinctMainUrls(saved) ==> DistinctMainUrls(o.results) by {
      if DistinctMainUrls(saved) {
        RunKeepsMainUrlsDistinct(parse, schools, visits, saved);
      }
    }
    Success(o)
  }

  /** Every record the loop appends carries the `main_url` of a school it
      visited; when no school has a saved `main_url`, no appended one does. */
  lemma RunAppendsUnsaved(parse: Parser, schools: seq<Record>, visits: seq<Visit>, saved: seq<Record>, o: Outcome)
    requires ParsesFields(parse) && |schools| <= |visits|
    requires forall i {:trigger visits[i]} :: 0 <= i < |visits| ==> Scripted(visits[i])
    requires forall k :: 0 <= k < |saved| ==> MainUrl in saved[k]
    requires forall i :: 0 <= i < |schools| ==> MainUrl in schools[i] && schools[i][MainUrl] !in MainUrls(saved)
    requires o == Run(parse, schools, visits, saved)
    ensures forall k :: |saved| <= k < |o.results| ==>
              MainUrl in o.results[k] && o.results[k][MainUrl] !in MainUrls(saved)
  {
    RunAppends(parse, schools, visits, saved, o);
    forall k | |saved| <= k < |o.results|
      ensures MainUrl in o.results[k] && o.results[k][MainUrl] !in MainUrls(saved)
    {
      assert EnrichedFromOne(o.results[k], schools, |o.pages|);
      var i :| 0 <= i < |o.pages| && i < |schools| && Enriched(o.results[k], schools[i]);
      EnrichedKeepsMainUrl(o.results[k], schools[i]);
    }
  }

  /** The results file stays loadable: when the saved records and the schools
      all have hashable `main_url` values, so do the results of the loop. */
  lemma RunAppendsHashable(parse: Parser, schools: seq<Record>, visits: seq<Visit>, saved: seq<Record>, o: Outcome)
    requires ParsesFields(parse) && |schools| <= |visits|
    requires forall i {:trigger visits[i]} :: 0 <= i < |visits| ==> Scripted(visits[i])
    requires UrlsHashable(saved)
    requires forall i :: 0 <= i < |schools| ==> HashableUrl(schools[i])
    requires o == Run(parse, schools, visits, saved)
    ensures UrlsHashable(o.results)
  {
    RunAppends(parse, schools, visits, saved, o);
    forall k | 0 <= k < |o.results|
      ensures HashableUrl(o.results[k])
    {
      if k < |saved| {
        assert o.results[k] == o.results[..|saved|][k];
      } else {
        assert EnrichedFromOne(o.results[k], schools, |o.pages|);
        var i :| 0 <= i < |o.pages| && i < |schools| && Enriched(o.results[k], schools[i]);
        EnrichedKeepsMainUrl(o.results[k], schools[i]);
      }
    }
  }

  /** Resuming: after a scrape, loading the register against the new results
      selects none of the schools that were just recorded. */
  lemma ScrapeResumes(u: Unicode, register: seq<Record>, saved: seq<Record>, visits: seq<Visit>, o: Outcome)
    requires |register| <= |visits|
    requires forall i {:trigger visits[i]} :: 0 <= i < |visits| ==> Scripted(visits[i])
    requires Scrape(u, register, saved, visits) == Success(o)
    ensures LoadSchools(register, o.results).Success?
    ensures forall k, j :: 0 <= k < |o.results| && 0 <= j < |LoadSchools(register, o.results).value| ==>
              LoadSchools(register, o.results).value[j][MainUrl] != o.results[k][MainUrl]
  {
  }
}
