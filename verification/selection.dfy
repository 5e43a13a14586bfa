/** The selection filter: which register entries still have to be scraped.
    `filter_schools` keeps the first entry with both URLs for every
    `main_url`; `filter_new` drops what the results file already holds;
    `load_schools` chains the two. */
module Selection {
  import opened Wrappers
  import opened Records

  /** An entry can be scraped: it has both URL fields. */
  predicate Eligible(school: Record)
  {
    MainUrl in school && DetailsUrl in school
  }

  /** The entries of `s` at the positions `keep` marks, in their order. */
  function Select(s: seq<Record>, keep: seq<bool>): (r: seq<Record>)
    requires |keep| == |s|
    ensures |r| <= |s|
  {
    if s == [] then []
    else if keep[0] then [s[0]] + Select(s[1..], keep[1..])
    else Select(s[1..], keep[1..])
  }

  /** Position `i` holds the first eligible entry with its `main_url`, and that
      `main_url` is not in `seen` either. */
  ghost predicate FirstFresh(s: seq<Record>, seen: set<Value>, i: int)
    requires 0 <= i < |s|
  {
    && Eligible(s[i])
    && s[i][MainUrl] !in seen
    && forall j :: 0 <= j < i && Eligible(s[j]) ==> s[j][MainUrl] != s[i][MainUrl]
  }

  ghost function FirstFreshMask(s: seq<Record>, seen: set<Value>): (m: seq<bool>)
    ensures |m| == |s|
    ensures forall i :: 0 <= i < |s| ==> (m[i] <==> FirstFresh(s, seen, i))
  {
    seq(|s|, i requires 0 <= i < |s| => FirstFresh(s, seen, i))
  }

  /** The positions `filter_schools` must keep: the first eligible entry for
      every `main_url`. */
  ghost function FirstEligibleMask(s: seq<Record>): (m: seq<bool>)
    ensures |m| == |s|
  {
    FirstFreshMask(s, {})
  }

  /** Every entry with both URLs has a hashable `main_url`: `filter_schools`
      looks each such `main_url` up in a dict. */
  ghost predicate EligibleUrlsHashable(s: seq<Record>)
  {
    forall k :: 0 <= k < |s| && Eligible(s[k]) ==> Hashable(s[k][MainUrl])
  }

  /** The loop of `filter_schools`, with `seen` the keys of its `unique` dict.
      The lookup of a list or dict `main_url` raises `TypeError`. */
  function FilterFrom(schools: seq<Record>, seen: set<Value>): (r: Result<seq<Record>, Error>)
    ensures r.Success? <==> EligibleUrlsHashable(schools)
    ensures r.Failure? ==> r.error == Unhashable
    ensures r.Success? ==> |r.value| <= |schools|
    ensures r.Success? ==> forall k :: 0 <= k < |r.value| ==>
                             Eligible(r.value[k]) && HashableUrl(r.value[k]) && r.value[k][MainUrl] !in seen
    ensures r.Success? ==> DistinctMainUrls(r.value)
  {
    if schools == [] then Success([])
    else
      assert forall k :: 0 <= k < |schools| - 1 ==> schools[1..][k] == schools[k + 1];
      if !Eligible(schools[0]) then FilterFrom(schools[1..], seen)
      else
        var url := schools[0][MainUrl];
        if !Hashable(url) then Failure(Unhashable)
        else if url in seen then FilterFrom(schools[1..], seen)
        else
          match FilterFrom(schools[1..], seen + {url})
          case Failure(e) => Failure(e)
          case Success(rest) =>
            var r := [schools[0]] + rest;
            assert forall k :: 1 <= k < |r| ==> r[k] == rest[k - 1];
            Success(r)
  }

  /** `filter_schools`: every kept entry has both URLs, and no two kept
      entries share a `main_url`; a list or dict `main_url` on an entry with
      both URLs raises `TypeError`. */
  function FilterSchools(schools: seq<Record>): (r: Result<seq<Record>, Error>)
    ensures r.Success? <==> EligibleUrlsHashable(schools)
    ensures r.Failure? ==> r.error == Unhashable
    ensures r.Success? ==> |r.value| <= |schools|
    ensures r.Success? ==> forall k :: 0 <= k < |r.value| ==> Eligible(r.value[k]) && HashableUrl(r.value[k])
    ensures r.Success? ==> DistinctMainUrls(r.value)
  {
    FilterFrom(schools, {})
  }

  /** The loop of `filter_schools` keeps exactly the first fresh eligible entries. */
  lemma {:induction false} FilterFromSelects(s: seq<Record>, seen: set<Value>)
    requires EligibleUrlsHashable(s)
    ensures FilterFrom(s, seen) == Success(Select(s, FirstFreshMask(s, seen)))
    decreases |s|
  {
    if s != [] {
      assert forall k :: 0 <= k < |s| - 1 ==> s[1..][k] == s[k + 1];
      var m := FirstFreshMask(s, seen);
      var seen' := if Eligible(s[0]) && s[0][MainUrl] !in seen then seen + {s[0][MainUrl]} else seen;
      var m' := FirstFreshMask(s[1..], seen');
      forall i | 0 <= i < |m'|
        ensures m'[i] == m[i + 1]
      {
        assert s[1..][i] == s[i + 1];
        if FirstFresh(s, seen, i + 1) {
          assert FirstFresh(s[1..], seen', i) by {
            forall j | 0 <= j < i && Eligible(s[1..][j])
              ensures s[1..][j][MainUrl] != s[1..][i][MainUrl]
            {
              assert s[1..][j] == s[j + 1];
            }
          }
        }
        if FirstFresh(s[1..], seen', i) {
          forall j | 0 <= j < i + 1 && Eligible(s[j])
            ensures s[j][MainUrl] != s[i + 1][MainUrl]
          {
            if j > 0 {
              assert s[j] == s[1..][j - 1];
            }
          }
        }
      }
      assert m[1..] == m';
      FilterFromSelects(s[1..], seen');
    }
  }

  /** When it succeeds, `filter_schools` is an order-preserving selection that
      keeps an entry exactly when it is the first one with both URLs for its
      `main_url`. */
  lemma FilterSchoolsKeepsFirstEligible(s: seq<Record>)
    requires EligibleUrlsHashable(s)
    ensures FilterSchools(s) == Success(Select(s, FirstEligibleMask(s)))
  {
    FilterFromSelects(s, {});
  }

  /** A list that is already filtered and avoids `seen` passes unchanged. */
  lemma {:induction false} FilterFromFixes(s: seq<Record>, seen: set<Value>)
    requires forall k :: 0 <= k < |s| ==> Eligible(s[k]) && HashableUrl(s[k]) && s[k][MainUrl] !in seen
    requires DistinctMainUrls(s)
    ensures FilterFrom(s, seen) == Success(s)
    decreases |s|
  {
    if s != [] {
      var seen' := seen + {s[0][MainUrl]};
      assert forall k :: 0 <= k < |s[1..]| ==> s[1..][k] == s[k + 1];
      FilterFromFixes(s[1..], seen');
      assert s == [s[0]] + s[1..];
    }
  }

  /** Re-filtering the output of `filter_schools` changes nothing. */
  lemma FilterSchoolsIdempotent(s: seq<Record>)
    ensures FilterSchools(s).Success? ==> FilterSchools(FilterSchools(s).value) == FilterSchools(s)
  {
    if FilterSchools(s).Success? {
      FilterFromFixes(FilterSchools(s).value, {});
    }
  }

  /** Every record has a hashable `main_url`. */
  ghost predicate UrlsHashable(rs: seq<Record>)
  {
    forall k :: 0 <= k < |rs| ==> HashableUrl(rs[k])
  }

  /** Record `i` is the first one without a hashable `main_url`. */
  ghost predicate FirstUnhashable(rs: seq<Record>, i: int)
    requires 0 <= i < |rs|
  {
    !HashableUrl(rs[i]) && forall j :: 0 <= j < i ==> HashableUrl(rs[j])
  }

  /** What `unique_saved[school['main_url']] = True` raises for a record
      without a hashable `main_url`. */
  function UrlError(school: Record): Error
  {
    if MainUrl in school then Unhashable else KeyError(MainUrl)
  }

  /** The first loop of `filter_new`: the set of `main_url` values of the
      saved results. The first saved record without a `main_url` raises
      `KeyError`, or `TypeError` when its `main_url` is a list or a dict. */
  function SavedUrls(saved: seq<Record>): (r: Result<set<Value>, Error>)
    ensures r.Success? <==> UrlsHashable(saved)
    ensures r.Success? ==> r.value == MainUrls(saved)
    ensures r.Failure? ==> exists i :: 0 <= i < |saved| && FirstUnhashable(saved, i) && r.error == UrlError(saved[i])
  {
    if saved == [] then Success({})
    else
      assert forall k :: 1 <= k < |saved| ==> saved[k] == saved[1..][k - 1];
      if !HashableUrl(saved[0]) then
        assert FirstUnhashable(saved, 0);
        Failure(UrlError(saved[0]))
      else
        match SavedUrls(saved[1..])
        case Failure(e) =>
          assert exists i :: 0 <= i < |saved| && FirstUnhashable(saved, i) && e == UrlError(saved[i]) by {
            var i :| 0 <= i < |saved[1..]| && FirstUnhashable(saved[1..], i) && e == UrlError(saved[1..][i]);
            assert FirstUnhashable(saved, i + 1);
          }
          Failure(e)
        case Success(rest) =>
          Success({saved[0][MainUrl]} + rest)
  }

  /** The second loop of `filter_new`: entries with a `main_url` outside
      `urls`. Looking up a list or dict `main_url` raises `TypeError`. */
  function KeepUnsaved(regs: seq<Record>, urls: set<Value>): (r: Result<seq<Record>, Error>)
    ensures r.Success? <==> forall k :: 0 <= k < |regs| && MainUrl in regs[k] ==> Hashable(regs[k][MainUrl])
    ensures r.Failure? ==> r.error == Unhashable
    ensures r.Success? ==> |r.value| <= |regs|
    ensures r.Success? ==> forall k :: 0 <= k < |r.value| ==> MainUrl in r.value[k] && r.value[k][MainUrl] !in urls
    ensures r.Success? ==> forall k :: 0 <= k < |r.value| ==> r.value[k] in regs
  {
    if regs == [] then Success([])
    else
      assert forall k :: 1 <= k < |regs| ==> regs[k] == regs[1..][k - 1];
      if MainUrl in regs[0] && !Hashable(regs[0][MainUrl]) then Failure(Unhashable)
      else
        match KeepUnsaved(regs[1..], urls)
        case Failure(e) => Failure(e)
        case Success(rest) =>
          if MainUrl in regs[0] && regs[0][MainUrl] !in urls then
            var r := [regs[0]] + rest;
            assert forall k :: 1 <= k < |r| ==> r[k] == rest[k - 1];
            Success(r)
          else
            Success(rest)
  }

  /** `filter_new`: no kept entry has a `main_url` of a saved result. The saved
      records are read first: the first one without a `main_url` raises
      `KeyError`, or `TypeError` for a list or dict `main_url`; then a list or
      dict `main_url` among the entries raises `TypeError`. */
  function FilterNew(regs: seq<Record>, saved: seq<Record>): (r: Result<seq<Record>, Error>)
    ensures r.Success? <==> UrlsHashable(saved) && forall k :: 0 <= k < |regs| && MainUrl in regs[k] ==> Hashable(regs[k][MainUrl])
    ensures r.Failure? && !UrlsHashable(saved) ==>
              exists i :: 0 <= i < |saved| && FirstUnhashable(saved, i) && r.error == UrlError(saved[i])
    ensures r.Failure? && UrlsHashable(saved) ==> r.error == Unhashable
    ensures r.Success? ==> |r.value| <= |regs|
    ensures r.Success? ==> forall k :: 0 <= k < |r.value| ==>
                             MainUrl in r.value[k] && r.value[k][MainUrl] !in MainUrls(saved)
    ensures r.Success? ==> forall k :: 0 <= k < |r.value| ==> r.value[k] in regs
  {
    var urls :- SavedUrls(saved);
    KeepUnsaved(regs, urls)
  }

  /** The positions `filter_new` must keep: entries with a `main_url` that is
      not the `main_url` of a saved result. */
  ghost function UnsavedMask(s: seq<Record>, urls: set<Value>): (m: seq<bool>)
    ensures |m| == |s|
    ensures forall i :: 0 <= i < |s| ==> (m[i] <==> MainUrl in s[i] && s[i][MainUrl] !in urls)
  {
    seq(|s|, i requires 0 <= i < |s| => MainUrl in s[i] && s[i][MainUrl] !in urls)
  }

  /** Selecting after a selection selects where both masks agree, as long as
      every kept entry's `main_url` can be looked up. */
  lemma {:induction false} KeepUnsavedAfterSelect(s: seq<Record>, keep: seq<bool>, urls: set<Value>)
    requires |keep| == |s|
    requires forall i :: 0 <= i < |s| && keep[i] && MainUrl in s[i] ==> Hashable(s[i][MainUrl])
    ensures KeepUnsaved(Select(s, keep), urls)
            == Success(Select(s, seq(|s|, i requires 0 <= i < |s| => keep[i] && UnsavedMask(s, urls)[i])))
    decreases |s|
  {
    if s != [] {
      var both := seq(|s|, i requires 0 <= i < |s| => keep[i] && UnsavedMask(s, urls)[i]);
      var both' := seq(|s| - 1, i requires 0 <= i < |s| - 1 => keep[1..][i] && UnsavedMask(s[1..], urls)[i]);
      assert both[1..] == both' by {
        forall i | 0 <= i < |s| - 1
          ensures both[1..][i] == both'[i]
        {
          assert s[1..][i] == s[i + 1];
        }
      }
      assert forall i :: 0 <= i < |s| - 1 ==> s[1..][i] == s[i + 1] && keep[1..][i] == keep[i + 1];
      KeepUnsavedAfterSelect(s[1..], keep[1..], urls);
      if keep[0] {
        var t := Select(s, keep);
        assert t == [s[0]] + Select(s[1..], keep[1..]);
        assert t[0] == s[0] && t[1..] == Select(s[1..], keep[1..]);
      }
    }
  }

  /** `filter_new` keeps, in their order, exactly the entries that have a
      `main_url` no saved result has. */
  lemma FilterNewKeepsUnsaved(regs: seq<Record>, saved: seq<Record>)
    requires UrlsHashable(saved)
    requires forall k :: 0 <= k < |regs| && MainUrl in regs[k] ==> Hashable(regs[k][MainUrl])
    ensures FilterNew(regs, saved) == Success(Select(regs, UnsavedMask(regs, MainUrls(saved))))
  {
    var all := seq(|regs|, i requires 0 <= i < |regs| => true);
    KeepUnsavedAfterSelect(regs, all, MainUrls(saved));
    assert Select(regs, all) == regs by {
      SelectAll(regs, all);
    }
    var both := seq(|regs|, i requires 0 <= i < |regs| => all[i] && UnsavedMask(regs, MainUrls(saved))[i]);
    assert both == UnsavedMask(regs, MainUrls(saved));
  }

  lemma {:induction false} SelectAll(s: seq<Record>, all: seq<bool>)
    requires |all| == |s| && forall i :: 0 <= i < |all| ==> all[i]
    ensures Select(s, all) == s
  {
    if s != [] {
      SelectAll(s[1..], all[1..]);
      assert s == [s[0]] + s[1..];
    }
  }

  /** The positions `load_schools` must keep: the first entry with both URLs
      for its `main_url`, provided no saved result has that `main_url`. */
  ghost function PendingMask(s: seq<Record>, urls: set<Value>): (m: seq<bool>)
    ensures |m| == |s|
  {
    seq(|s|, i requires 0 <= i < |s| => FirstEligibleMask(s)[i] && UnsavedMask(s, urls)[i])
  }

  /** `load_schools` without its I/O: `filter_new(filter_schools(register), saved)`.
      The register is filtered first, so its `TypeError` comes before any
      error of the saved results. */
  function LoadSchools(register: seq<Record>, saved: seq<Record>): (r: Result<seq<Record>, Error>)
    ensures r.Success? <==> EligibleUrlsHashable(register) && UrlsHashable(saved)
    ensures r.Failure? && !EligibleUrlsHashable(register) ==> r.error == Unhashable
    ensures r.Failure? && EligibleUrlsHashable(register) ==>
              exists i :: 0 <= i < |saved| && FirstUnhashable(saved, i) && r.error == UrlError(saved[i])
    ensures r.Success? ==> forall k :: 0 <= k < |r.value| ==>
                             Eligible(r.value[k]) && HashableUrl(r.value[k]) && r.value[k][MainUrl] !in MainUrls(saved)
    ensures r.Success? ==> DistinctMainUrls(r.value)
    ensures r.Success? ==> |r.value| <= |register|
  {
    var pending :- FilterSchools(register);
    var r := FilterNew(pending, saved);
    if r.Success? then
      FilterNewKeepsUnsaved(pending, saved);
      SelectDistinct(pending, UnsavedMask(pending, MainUrls(saved)));
      r
    else
      r
  }

  /** A selection keeps only entries of the list. */
  lemma {:induction false} SelectMembers(s: seq<Record>, keep: seq<bool>)
    requires |keep| == |s|
    ensures forall k :: 0 <= k < |Select(s, keep)| ==> Select(s, keep)[k] in s
  {
    if s != [] {
      SelectMembers(s[1..], keep[1..]);
    }
  }

  /** A selection from a list with distinct `main_url` values keeps them distinct. */
  lemma {:induction false} SelectDistinct(s: seq<Record>, keep: seq<bool>)
    requires |keep| == |s|
    requires DistinctMainUrls(s)
    ensures DistinctMainUrls(Select(s, keep))
  {
    if s != [] {
      assert forall k :: 0 <= k < |s[1..]| ==> s[1..][k] == s[k + 1];
      SelectDistinct(s[1..], keep[1..]);
      SelectMembers(s[1..], keep[1..]);
      var rest := Select(s[1..], keep[1..]);
      forall k | 0 <= k < |rest|
        ensures rest[k][MainUrl] != s[0][MainUrl]
      {
        var j :| 0 <= j < |s[1..]| && s[1..][j] == rest[k];
        assert s[j + 1] == rest[k];
      }
      if keep[0] {
        var r := [s[0]] + rest;
        assert forall k :: 1 <= k < |r| ==> r[k] == rest[k - 1];
      }
    }
  }

  /** `load_schools` keeps, in register order, exactly the first entry with
      both URLs for every `main_url` that no saved result has. */
  lemma LoadSchoolsSelects(register: seq<Record>, saved: seq<Record>)
    requires EligibleUrlsHashable(register) && UrlsHashable(saved)
    ensures LoadSchools(register, saved) == Success(Select(register, PendingMask(register, MainUrls(saved))))
  {
    FilterSchoolsKeepsFirstEligible(register);
    KeepUnsavedAfterSelect(register, FirstEligibleMask(register), MainUrls(saved));
  }
}
