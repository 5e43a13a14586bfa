/** The companion script that lists the details pages of the selected schools.
    Its file-name pairing, filters and `get_url` are the same code as in the
    scraper and are modelled once, in `FileNames`, `Selection` and `Retry`.
    Only its `load_schools` differs: its progress message names a variable
    `fname` that does not exist in that function or at module level. */
module Details {
  import opened Wrappers
  import opened Records
  import opened Selection

  /** `load_schools` of the details script as written: once both lists are
      loaded, the f-string of the first message looks up `fname`, which
      raises `NameError` before any filtering happens. */
  function LoadSchoolsAsWritten(register: seq<Record>, saved: seq<Record>): (r: Result<seq<Record>, Error>)
    ensures r.Failure? && r.error == UndefinedName("fname")
  {
    Failure(UndefinedName("fname"))
  }

  /** The details script never gets a list of schools: for every register
      and every results list, even when the composition of the two filters
      succeeds, the function as written fails. */
  lemma LoadSchoolsAsWrittenNeverLoads(register: seq<Record>, saved: seq<Record>)
    requires EligibleUrlsHashable(register) && UrlsHashable(saved)
    ensures LoadSchools(register, saved).Success?
    ensures LoadSchoolsAsWritten(register, saved) != LoadSchools(register, saved)
  {
  }

  /** The smallest witness: an empty register with no saved results, where the
      intended function returns the empty list. */
  lemma EmptyRegisterWitness(register: seq<Record>, saved: seq<Record>)
    requires register == [] && saved == []
    ensures LoadSchools(register, saved) == Success([])
    ensures LoadSchoolsAsWritten(register, saved) == Failure(UndefinedName("fname"))
  {
  }
}
