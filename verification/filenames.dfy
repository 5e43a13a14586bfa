/** The pairing of the register file with the results file:
    `schools_register<digits>.pkl` is read, `schools_results<digits>.pkl` is
    written. The directory listing is an input. */
module FileNames {
  import opened Wrappers
  import opened Text
  import opened Records

  const RegisterStem: string := "schools_register"
  const ResultsStem: string := "schools_results"
  const Extension: string := ".pkl"

  /** Every character belongs to `\d`. */
  predicate AllDigits(u: Unicode, d: string)
  {
    forall k :: 0 <= k < |d| ==> u.isDigit(d[k])
  }

  function RegisterName(d: string): string
  {
    RegisterStem + d + Extension
  }

  function ResultsName(d: string): string
  {
    ResultsStem + d + Extension
  }

  /** The group `(\d+)` of `re.match(r"^schools_register(\d+)\.pkl$", name)`,
      or `None` when the name does not match. Python's `$` also matches just
      before a final newline, so a name ending in ".pkl\n" matches as well. */
  function RegisterDigits(u: Unicode, name: string): (r: Option<string>)
    ensures r.Some? ==> r.value != [] && AllDigits(u, r.value)
    ensures r.Some? ==> name == RegisterName(r.value) || name == RegisterName(r.value) + "\n"
  {
    var body := if name != [] && name[|name| - 1] == '\n' then name[..|name| - 1] else name;
    if |body| > |RegisterStem| + |Extension|
       && body[..|RegisterStem|] == RegisterStem
       && body[|body| - |Extension|..] == Extension
       && AllDigits(u, body[|RegisterStem|..|body| - |Extension|])
    then
      var d := body[|RegisterStem|..|body| - |Extension|];
      assert body == RegisterName(d);
      Some(d)
    else
      None
  }

  /** Converse of the contract of `RegisterDigits`: every register name, with or
      without a final newline, matches and yields its own digits. */
  lemma RegisterNameMatches(u: Unicode, d: string, newline: bool)
    requires d != [] && AllDigits(u, d)
    ensures RegisterDigits(u, RegisterName(d) + (if newline then "\n" else "")) == Some(d)
  {
    var name := RegisterName(d) + (if newline then "\n" else "");
    var body := RegisterName(d);
    if newline {
      assert name[..|name| - 1] == body;
    } else {
      assert name == body;
      assert body[|body| - 1] == 'l';
    }
    assert body[..|RegisterStem|] == RegisterStem;
    assert body[|body| - |Extension|..] == Extension;
    assert body[|RegisterStem|..|body| - |Extension|] == d;
  }

  /** `get_outfile_name`: the results file that belongs to a register file;
      any other name raises. */
  function GetOutfileName(u: Unicode, name: string): (r: Result<string, Error>)
    ensures r.Failure? <==> RegisterDigits(u, name).None?
    ensures r.Failure? ==> r.error == UnexpectedFileName(name)
    ensures r.Success? ==> r.value != name
  {
    match RegisterDigits(u, name)
    case None => Failure(UnexpectedFileName(name))
    case Some(d) =>
      var out := ResultsName(d);
      assert out[10] != name[10];
      Success(out)
  }

  /** `schools_register<D>.pkl` is paired with `schools_results<D>.pkl`, for
      every non-empty digit string `D`, also when the name ends in a newline. */
  lemma OutfileOfRegister(u: Unicode, d: string, newline: bool)
    requires d != [] && AllDigits(u, d)
    ensures GetOutfileName(u, RegisterName(d) + (if newline then "\n" else "")) == Success(ResultsName(d))
  {
    RegisterNameMatches(u, d, newline);
  }

  /** `get_infile_name`: the first entry of the listing that is a register
      file, or `None` (the function falls off its loop) when there is none. */
  function GetInfileName(u: Unicode, files: seq<string>): (r: Option<string>)
    ensures r.None? <==> forall k :: 0 <= k < |files| ==> RegisterDigits(u, files[k]).None?
    ensures r.Some? ==> exists k :: 0 <= k < |files| && files[k] == r.value
                                    && RegisterDigits(u, files[k]).Some?
                                    && forall j :: 0 <= j < k ==> RegisterDigits(u, files[j]).None?
  {
    if files == [] then None
    else if RegisterDigits(u, files[0]).Some? then Some(files[0])
    else
      var rest := files[1..];
      var r := GetInfileName(u, rest);
      assert forall k :: 1 <= k < |files| ==> files[k] == rest[k - 1];
      assert r.Some? ==> exists k :: 0 <= k < |files| && files[k] == r.value
                                     && RegisterDigits(u, files[k]).Some?
                                     && forall j :: 0 <= j < k ==> RegisterDigits(u, files[j]).None? by {
        if r.Some? {
          var k :| 0 <= k < |rest| && rest[k] == r.value && RegisterDigits(u, rest[k]).Some?
                   && forall j :: 0 <= j < k ==> RegisterDigits(u, rest[j]).None?;
          assert files[k + 1] == rest[k];
        }
      }
      r
  }

  /** The module-level pair `REGS_FILE`, `RESULTS_FILE`. Without a register
      file `get_outfile_name(None)` raises inside `re.match`. */
  function StorageKeys(u: Unicode, files: seq<string>): (r: Result<(string, string), Error>)
    ensures r.Failure? <==> forall k :: 0 <= k < |files| ==> RegisterDigits(u, files[k]).None?
    ensures r.Success? ==> r.value.0 in files
    ensures r.Success? ==> exists d :: d != [] && AllDigits(u, d) && r.value.1 == ResultsName(d)
                                       && (r.value.0 == RegisterName(d) || r.value.0 == RegisterName(d) + "\n")
  {
    match GetInfileName(u, files)
    case None => Failure(NoRegisterFile)
    case Some(f) =>
      match GetOutfileName(u, f)
      case Failure(e) => Failure(e)
      case Success(out) =>
        assert out == ResultsName(RegisterDigits(u, f).value);
        Success((f, out))
  }
}
