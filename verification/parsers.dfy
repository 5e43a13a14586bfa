/** The field parsers of the information panel. The HTML is abstracted to what
    the parsers read from it:
    - every `<div>` of the panel, in document order, with its `.string` and the
      `.string` of `div.parent.contents[1]` (its value slot);
    - every `mat-table`, as its `mat-row`s of `mat-cell` strings;
    - whether an `app-other-information-tab` element exists. */
module Parsers {
  import opened Wrappers
  import opened Records
  import opened Text

  /** One `<div>`: `div.string`, and `div.parent.contents[1].string`, which is
      `None` when that slot does not exist or holds no single string. */
  datatype Div = Div(text: Option<string>, slot: Option<string>)

  /** `.string` of every `mat-cell` of one `mat-row`. */
  type Row = seq<Option<string>>

  datatype Document = Document(
    hasInfoTab: bool,
    divs: seq<Div>,
    tables: seq<seq<Row>>)

  // ---------------------------------------------------------------------
  // Last-wins assignment: `res[key] = value` inside a loop that may raise.

  /** What one iteration of a parser loop does to the result dictionary. */
  datatype Write = Skip | Put(key: string, val: Value) | Raise(error: Error)

  predicate PutsKey(w: Write, key: string)
  {
    w.Put? && w.key == key
  }

  /** The value the last `Put` of `key` writes, if any. */
  function LastPut(writes: seq<Write>, key: string): (r: Option<Value>)
    ensures r.None? <==> forall i :: 0 <= i < |writes| ==> !PutsKey(writes[i], key)
    ensures r.Some? ==> exists i :: 0 <= i < |writes| && writes[i] == Put(key, r.value)
                                    && forall j :: i < j < |writes| ==> !PutsKey(writes[j], key)
  {
    if writes == [] then None
    else
      var last := writes[|writes| - 1];
      var init := writes[..|writes| - 1];
      assert forall i :: 0 <= i < |init| ==> init[i] == writes[i];
      if PutsKey(last, key) then Some(last.val) else LastPut(init, key)
  }

  /** The last `Put` of `key` is the last one after the first write, unless
      only the first write puts it. */
  lemma {:induction false} LastPutFront(writes: seq<Write>, key: string)
    requires writes != []
    ensures LastPut(writes, key)
            == if LastPut(writes[1..], key).Some? then LastPut(writes[1..], key)
               else if PutsKey(writes[0], key) then Some(writes[0].val)
               else None
    decreases |writes|
  {
    var n := |writes|;
    if n > 1 {
      var init := writes[..n - 1];
      assert init[1..] == writes[1..][..n - 2];
      assert init[0] == writes[0];
      if !PutsKey(writes[n - 1], key) {
        LastPutFront(init, key);
      }
    }
  }

  /** The dictionary after the writes, `res` being its value before them. */
  function Lookup(res: map<string, Value>, writes: seq<Write>, key: string): Option<Value>
  {
    match LastPut(writes, key)
    case Some(v) => Some(v)
    case None => if key in res then Some(res[key]) else None
  }

  /** The dictionary after one write that does not raise. */
  function After(res: map<string, Value>, w: Write): map<string, Value>
  {
    if w.Put? then res[w.key := w.val] else res
  }

  /** What a key holds after the writes is what it holds after the rest of
      the writes, starting from the dictionary after the first one. */
  lemma LookupStep(res: map<string, Value>, writes: seq<Write>, key: string)
    requires writes != [] && !writes[0].Raise?
    ensures Lookup(res, writes, key) == Lookup(After(res, writes[0]), writes[1..], key)
  {
    LastPutFront(writes, key);
  }

  /** Runs the writes in order over `res`; the first `Raise` aborts. */
  function Apply(writes: seq<Write>, res: map<string, Value>): (r: Result<map<string, Value>, Error>)
    ensures r.Success? <==> forall i :: 0 <= i < |writes| ==> !writes[i].Raise?
    ensures r.Failure? ==> exists i :: 0 <= i < |writes| && writes[i] == Raise(r.error)
    ensures r.Success? ==> forall key :: key in r.value <==> Lookup(res, writes, key).Some?
    ensures r.Success? ==> forall key :: key in r.value ==> r.value[key] == Lookup(res, writes, key).value
  {
    if writes == [] then Success(res)
    else if writes[0].Raise? then Failure(writes[0].error)
    else
      var rest := Apply(writes[1..], After(res, writes[0]));
      assert forall i :: 1 <= i < |writes| ==> writes[i] == writes[1..][i - 1];
      assert forall key :: Lookup(res, writes, key) == Lookup(After(res, writes[0]), writes[1..], key) by {
        forall key ensures Lookup(res, writes, key) == Lookup(After(res, writes[0]), writes[1..], key) {
          LookupStep(res, writes, key);
        }
      }
      rest
  }

  // ---------------------------------------------------------------------
  // parse_inns

  const IdLabels: seq<(string, string)> := [("ИНН", "INN"), ("КПП", "KPP"), ("ОГРН", "OGRN")]
  const IdKeys: set<string> := {"INN", "KPP", "OGRN"}

  predicate AllWord(u: Unicode, s: string)
  {
    forall k :: 0 <= k < |s| ==> u.isWord(s[k])
  }

  /** `\s+(\w+)$` on the rest of the text after a caption: the group, or `None`.
      The text is stripped, so it never ends in a newline and `$` is its end.
      The `\s+` takes all leading whitespace; giving some back cannot help,
      because the last character of a stripped text is not whitespace. */
  function SpacesThenWord(u: Unicode, rest: string): (r: Option<string>)
    ensures r.Some? ==> r.value != [] && AllWord(u, r.value) && !IsSpace(r.value[0])
                        && |r.value| < |rest| && rest[|rest| - |r.value|..] == r.value
                        && forall k :: 0 <= k < |rest| - |r.value| ==> IsSpace(rest[k])
  {
    var n := LeadingSpaces(rest);
    if 0 < n < |rest| && AllWord(u, rest[n..]) then Some(rest[n..]) else None
  }

  /** `re.match(r"^(ИНН|КПП|ОГРН)\s+(\w+)$", s)`: the canonical key of the
      caption and the identifier token. The labels start with distinct letters,
      so at most one of them is a prefix of `s`. */
  function IdMatch(u: Unicode, s: string): (r: Option<(string, string)>)
    requires s == [] || !IsSpace(s[|s| - 1])
    ensures r.Some? ==> exists l :: 0 <= l < |IdLabels| && IdLabels[l].1 == r.value.0
                                    && |IdLabels[l].0| < |s| && s[..|IdLabels[l].0|] == IdLabels[l].0
                                    && SpacesThenWord(u, s[|IdLabels[l].0|..]) == Some(r.value.1)
    ensures r.Some? ==> r.value.0 in IdKeys && r.value.1 != [] && AllWord(u, r.value.1)
  {
    IdMatchFrom(u, s, 0)
  }

  function IdMatchFrom(u: Unicode, s: string, l: nat): (r: Option<(string, string)>)
    requires l <= |IdLabels|
    ensures r.Some? ==> exists l' :: l <= l' < |IdLabels| && IdLabels[l'].1 == r.value.0
                                     && |IdLabels[l'].0| < |s| && s[..|IdLabels[l'].0|] == IdLabels[l'].0
                                     && SpacesThenWord(u, s[|IdLabels[l'].0|..]) == Some(r.value.1)
    ensures r.Some? ==> r.value.0 in IdKeys && r.value.1 != [] && AllWord(u, r.value.1)
    decreases |IdLabels| - l
  {
    if l == |IdLabels| then None
    else
      var (caption, key) := IdLabels[l];
      if |caption| < |s| && s[..|caption|] == caption && SpacesThenWord(u, s[|caption|..]).Some? then
        Some((key, SpacesThenWord(u, s[|caption|..]).value))
      else
        IdMatchFrom(u, s, l + 1)
  }

  /** Converse of the contract of `IdMatch`: a caption, whitespace, and a word
      token are matched, and the token is the identifier. */
  lemma IdMatchLabelled(u: Unicode, l: nat, spaces: string, token: string)
    requires l < |IdLabels|
    requires spaces != [] && forall k :: 0 <= k < |spaces| ==> IsSpace(spaces[k])
    requires token != [] && AllWord(u, token) && !IsSpace(token[0]) && !IsSpace(token[|token| - 1])
    ensures IdMatch(u, IdLabels[l].0 + spaces + token) == Some((IdLabels[l].1, token))
  {
    var caption := IdLabels[l].0;
    var s := caption + spaces + token;
    var rest := spaces + token;
    assert s[..|caption|] == caption;
    assert s[|caption|..] == rest;
    LeadingSpacesOf(spaces, token);
    assert rest[|spaces|..] == token;
    assert SpacesThenWord(u, rest) == Some(token);
    forall l' | 0 <= l' < l
      ensures !(|IdLabels[l'].0| < |s| && s[..|IdLabels[l'].0|] == IdLabels[l'].0)
    {
      assert IdLabels[l'].0[0] != caption[0];
    }
    IdMatchSkips(u, s, l);
  }

  lemma {:induction false} IdMatchSkips(u: Unicode, s: string, l: nat)
    requires l < |IdLabels|
    requires forall l' :: 0 <= l' < l ==> !(|IdLabels[l'].0| < |s| && s[..|IdLabels[l'].0|] == IdLabels[l'].0)
    ensures IdMatchFrom(u, s, 0) == IdMatchFrom(u, s, l)
  {
  }

  lemma {:induction false} LeadingSpacesOf(spaces: string, token: string)
    requires forall k :: 0 <= k < |spaces| ==> IsSpace(spaces[k])
    requires token != [] && !IsSpace(token[0])
    ensures LeadingSpaces(spaces + token) == |spaces|
    decreases |spaces|
  {
    if spaces == [] {
      assert spaces + token == token;
    } else {
      assert (spaces + token)[1..] == spaces[1..] + token;
      LeadingSpacesOf(spaces[1..], token);
    }
  }

  /** One iteration of `parse_inns`. */
  function IdWrite(u: Unicode, div: Div): Write
  {
    match div.text
    case None => Skip
    case Some(t) =>
      match IdMatch(u, NormText(u, t))
      case Some((key, token)) => Put(key, Str(token))
      case None => Skip
  }

  function IdWrites(u: Unicode, divs: seq<Div>): (ws: seq<Write>)
    ensures |ws| == |divs|
    ensures forall i :: 0 <= i < |divs| ==> ws[i] == IdWrite(u, divs[i])
  {
    seq(|divs|, i requires 0 <= i < |divs| => IdWrite(u, divs[i]))
  }

  /** `parse_inns`: only the keys `INN`, `KPP`, `OGRN`, each mapped to the
      `\w+` token of the last `<div>` that carries that caption. */
  function ParseInns(u: Unicode, divs: seq<Div>): (r: map<string, Value>)
    ensures r.Keys <= IdKeys
    ensures forall key :: key in r <==> exists i :: 0 <= i < |divs| && PutsKey(IdWrite(u, divs[i]), key)
    ensures forall key :: key in r ==> r[key].Str? && r[key].s != [] && AllWord(u, r[key].s)
    ensures forall key :: key in r ==> LastPut(IdWrites(u, divs), key) == Some(r[key])
  {
    var ws := IdWrites(u, divs);
    IdWritesShape(u, divs);
    var r := Apply(ws, map[]);
    ParseInnsKeys(u, divs, r.value);
    r.value
  }

  /** The identifier loop never raises, and puts only identifier keys with
      word tokens. */
  lemma IdWritesShape(u: Unicode, divs: seq<Div>)
    ensures var ws := IdWrites(u, divs);
            && (forall i :: 0 <= i < |ws| ==> !ws[i].Raise?)
            && (forall i :: 0 <= i < |ws| && ws[i].Put? ==>
                  ws[i].key in IdKeys && ws[i].val.Str? && ws[i].val.s != [] && AllWord(u, ws[i].val.s))
  {
  }

  /** The keys and values of a completed identifier loop. */
  lemma ParseInnsKeys(u: Unicode, divs: seq<Div>, m: map<string, Value>)
    requires Apply(IdWrites(u, divs), map[]) == Success(m)
    ensures m.Keys <= IdKeys
    ensures forall key :: key in m ==> m[key].Str? && m[key].s != [] && AllWord(u, m[key].s)
  {
    IdWritesShape(u, divs);
    IdPutsOnly(u, IdWrites(u, divs), m);
  }

  /** A dictionary built from empty by writes that put only identifier keys
      with word tokens holds only such entries. */
  lemma IdPutsOnly(u: Unicode, ws: seq<Write>, m: map<string, Value>)
    requires Apply(ws, map[]) == Success(m)
    requires forall i :: 0 <= i < |ws| && ws[i].Put? ==>
               ws[i].key in IdKeys && ws[i].val.Str? && ws[i].val.s != [] && AllWord(u, ws[i].val.s)
    ensures m.Keys <= IdKeys
    ensures forall key :: key in m ==> m[key].Str? && m[key].s != [] && AllWord(u, m[key].s)
  {
    PutsFrom(ws, m);
    forall key | key in m
      ensures key in IdKeys && m[key].Str? && m[key].s != [] && AllWord(u, m[key].s)
    {
      var i :| 0 <= i < |ws| && ws[i] == Put(key, m[key]);
    }
  }

  /** Every entry of a dictionary built from empty was put by some write. */
  lemma PutsFrom(ws: seq<Write>, m: map<string, Value>)
    requires Apply(ws, map[]) == Success(m)
    ensures forall key :: key in m ==> exists i :: 0 <= i < |ws| && ws[i] == Put(key, m[key])
  {
    forall key | key in m
      ensures exists i :: 0 <= i < |ws| && ws[i] == Put(key, m[key])
    {
      assert LastPut(ws, key) == Some(m[key]);
    }
  }

  // ---------------------------------------------------------------------
  // parse_director, parse_authority

  const DirectorLabel: string := "Директор"
  const AuthorityLabel: string := "Вышестоящая организация"

  /** The `<div>` carries exactly the caption once normalised and stripped. */
  predicate Labelled(u: Unicode, div: Div, caption: string)
  {
    div.text.Some? && NormText(u, div.text.value) == caption
  }

  /** One iteration of the loop shared by `parse_director` and
      `parse_authority`: a `<div>` whose normalised text is exactly the caption
      stores its normalised value slot; a missing slot raises. */
  function LabelWrite(u: Unicode, div: Div, caption: string, key: string): Write
  {
    if !Labelled(u, div, caption) then Skip
    else match div.slot
      case None => Raise(NoValueSlot(key))
      case Some(v) => Put(key, Str(NormText(u, v)))
  }

  function LabelWrites(u: Unicode, divs: seq<Div>, caption: string, key: string): (ws: seq<Write>)
    ensures |ws| == |divs|
    ensures forall i :: 0 <= i < |divs| ==> ws[i] == LabelWrite(u, divs[i], caption, key)
  {
    seq(|divs|, i requires 0 <= i < |divs| => LabelWrite(u, divs[i], caption, key))
  }

  /** The value a labelled `<div>` stores. */
  function SlotValue(u: Unicode, div: Div): Value
    requires div.slot.Some?
  {
    Str(NormText(u, div.slot.value))
  }

  /** The caption lookup: the key is present exactly when some `<div>` carries
      the caption, and then holds the value slot of the last such `<div>`;
      it raises when a labelled `<div>` has no value slot. */
  function LabelLookup(u: Unicode, divs: seq<Div>, caption: string, key: string): (r: Result<map<string, Value>, Error>)
    ensures r.Success? <==> forall i :: 0 <= i < |divs| && Labelled(u, divs[i], caption) ==> divs[i].slot.Some?
    ensures r.Failure? ==> r.error == NoValueSlot(key)
    ensures r.Success? ==> r.value.Keys <= {key}
    ensures r.Success? ==> (key in r.value <==> exists i :: 0 <= i < |divs| && Labelled(u, divs[i], caption))
    ensures r.Success? && key in r.value ==>
              exists i :: 0 <= i < |divs| && Labelled(u, divs[i], caption)
                          && r.value[key] == SlotValue(u, divs[i])
                          && forall j :: i < j < |divs| ==> !Labelled(u, divs[j], caption)
  {
    var ws := LabelWrites(u, divs, caption, key);
    LabelWritesShape(u, divs, caption, key);
    var r := Apply(ws, map[]);
    if r.Success? then
      LabelLookupKeys(u, divs, caption, key, r.value);
      r
    else
      r
  }

  /** Which writes the caption loop issues. */
  lemma LabelWritesShape(u: Unicode, divs: seq<Div>, caption: string, key: string)
    ensures var ws := LabelWrites(u, divs, caption, key);
            && (forall i :: 0 <= i < |divs| ==> (ws[i].Raise? <==> Labelled(u, divs[i], caption) && divs[i].slot.None?))
            && (forall i :: 0 <= i < |divs| && ws[i].Raise? ==> ws[i].error == NoValueSlot(key))
            && (forall i :: 0 <= i < |divs| && ws[i].Put? ==> ws[i].key == key && divs[i].slot.Some?
                                                                  && ws[i].val == SlotValue(u, divs[i]))
            && (forall i :: 0 <= i < |divs| ==> (ws[i].Skip? <==> !Labelled(u, divs[i], caption)))
  {
  }

  /** The keys and the value of a completed caption lookup. */
  lemma LabelLookupKeys(u: Unicode, divs: seq<Div>, caption: string, key: string, m: map<string, Value>)
    requires Apply(LabelWrites(u, divs, caption, key), map[]) == Success(m)
    ensures m.Keys <= {key}
    ensures key in m <==> exists i :: 0 <= i < |divs| && Labelled(u, divs[i], caption)
    ensures key in m ==>
              exists i :: 0 <= i < |divs| && Labelled(u, divs[i], caption)
                          && m[key] == SlotValue(u, divs[i])
                          && forall j :: i < j < |divs| ==> !Labelled(u, divs[j], caption)
  {
    var ws := LabelWrites(u, divs, caption, key);
    LabelWritesShape(u, divs, caption, key);
    SingleKeyApply(ws, key, m);
    if key in m {
      var i :| 0 <= i < |ws| && ws[i] == Put(key, m[key]) && forall j :: i < j < |ws| ==> ws[j].Skip?;
      assert Labelled(u, divs[i], caption);
    }
  }

  /** Writes that only ever put one key, none of them raising: the key ends up
      present exactly when some write puts it, holding the last value put. */
  lemma SingleKeyApply(ws: seq<Write>, key: string, m: map<string, Value>)
    requires forall i :: 0 <= i < |ws| && ws[i].Put? ==> ws[i].key == key
    requires Apply(ws, map[]) == Success(m)
    ensures m.Keys <= {key}
    ensures key in m <==> exists i :: 0 <= i < |ws| && ws[i].Put?
    ensures key in m ==> exists i :: 0 <= i < |ws| && ws[i] == Put(key, m[key])
                                     && forall j :: i < j < |ws| ==> ws[j].Skip?
  {
    forall k | k in m ensures k == key {
      var i :| 0 <= i < |ws| && ws[i] == Put(k, LastPut(ws, k).value);
    }
    if exists i :: 0 <= i < |ws| && ws[i].Put? {
      var i :| 0 <= i < |ws| && ws[i].Put?;
      assert PutsKey(ws[i], key);
    }
    if key in m {
      var i :| 0 <= i < |ws| && ws[i] == Put(key, m[key])
               && forall j :: i < j < |ws| ==> !PutsKey(ws[j], key);
      forall j | i < j < |ws| ensures ws[j].Skip? {
        assert !ws[j].Raise? && !PutsKey(ws[j], key);
      }
    }
  }

  /** `parse_director`. */
  function ParseDirector(u: Unicode, divs: seq<Div>): (r: Result<map<string, Value>, Error>)
    ensures r.Success? <==> forall i :: 0 <= i < |divs| && Labelled(u, divs[i], DirectorLabel) ==> divs[i].slot.Some?
    ensures r.Failure? ==> r.error == NoValueSlot("director")
    ensures r.Success? ==> r.value.Keys <= {"director"}
    ensures r.Success? ==> ("director" in r.value <==> exists i :: 0 <= i < |divs| && Labelled(u, divs[i], DirectorLabel))
    ensures r.Success? && "director" in r.value ==>
              exists i :: 0 <= i < |divs| && Labelled(u, divs[i], DirectorLabel)
                          && r.value["director"] == SlotValue(u, divs[i])
                          && forall j :: i < j < |divs| ==> !Labelled(u, divs[j], DirectorLabel)
  {
    LabelLookup(u, divs, DirectorLabel, "director")
  }

  /** `parse_authority`. */
  function ParseAuthority(u: Unicode, divs: seq<Div>): (r: Result<map<string, Value>, Error>)
    ensures r.Success? <==> forall i :: 0 <= i < |divs| && Labelled(u, divs[i], AuthorityLabel) ==> divs[i].slot.Some?
    ensures r.Failure? ==> r.error == NoValueSlot("authority")
    ensures r.Success? ==> r.value.Keys <= {"authority"}
    ensures r.Success? ==> ("authority" in r.value <==> exists i :: 0 <= i < |divs| && Labelled(u, divs[i], AuthorityLabel))
    ensures r.Success? && "authority" in r.value ==>
              exists i :: 0 <= i < |divs| && Labelled(u, divs[i], AuthorityLabel)
                          && r.value["authority"] == SlotValue(u, divs[i])
                          && forall j :: i < j < |divs| ==> !Labelled(u, divs[j], AuthorityLabel)
  {
    LabelLookup(u, divs, AuthorityLabel, "authority")
  }

  // ---------------------------------------------------------------------
  // parse_subsidies, parse_staff

  /** `cells[c]` exists and has a string, for every `c < width`. */
  predicate HasCells(row: Row, width: nat)
  {
    width <= |row| && forall c :: 0 <= c < width ==> row[c].Some?
  }

  /** The strings of cells `0 .. width-1` of one row, read left to right;
      the first missing cell raises. */
  function RowCells(row: Row, width: nat): (r: Result<seq<string>, Error>)
    ensures r.Success? <==> HasCells(row, width)
    ensures r.Success? ==> |r.value| == width
                           && forall c :: 0 <= c < width ==> r.value[c] == row[c].value
    ensures r.Failure? ==> r.error.MissingCell? && r.error.column < width
  {
    if width == 0 then Success([])
    else
      match RowCells(row, width - 1)
      case Failure(e) => Failure(e)
      case Success(init) =>
        if width - 1 < |row| && row[width - 1].Some? then
          Success(init + [row[width - 1].value])
        else
          Failure(MissingCell(width - 1))
  }

  /** The cell strings of every row, row by row; the first missing cell raises. */
  function TableCells(rows: seq<Row>, width: nat): (r: Result<seq<seq<string>>, Error>)
    ensures r.Success? <==> forall k :: 0 <= k < |rows| ==> HasCells(rows[k], width)
    ensures r.Success? ==> |r.value| == |rows|
    ensures r.Success? ==> forall k :: 0 <= k < |rows| ==> RowCells(rows[k], width) == Success(r.value[k])
    ensures r.Failure? ==> r.error.MissingCell? && r.error.column < width
  {
    if rows == [] then Success([])
    else
      match RowCells(rows[0], width)
      case Failure(e) => Failure(e)
      case Success(first) =>
        match TableCells(rows[1..], width)
        case Failure(e) =>
          Failure(e)
        case Success(rest) =>
          assert forall k :: 1 <= k < |rows| ==> rows[k] == rows[1..][k - 1];
          var cells := [first] + rest;
          assert forall k :: 1 <= k < |rows| ==> cells[k] == rest[k - 1];
          Success(cells)
  }

  /** Column `c` of a table's cell strings, each one normalised and cleaned. */
  function Column(u: Unicode, cells: seq<seq<string>>, c: nat): (col: seq<string>)
    requires forall k :: 0 <= k < |cells| ==> c < |cells[k]|
    ensures |col| == |cells|
    ensures forall k :: 0 <= k < |cells| ==> col[k] == CleanCell(u, cells[k][c])
  {
    seq(|cells|, k requires 0 <= k < |cells| => CleanCell(u, cells[k][c]))
  }

  /** The table a parser fills when its `mat-table` exists: one column per
      name, cell `c` of every row, cleaned, in row order. */
  ghost predicate FilledFrom(u: Unicode, t: map<string, seq<string>>, names: seq<string>, rows: seq<Row>)
  {
    && t.Keys == (set c | 0 <= c < |names| :: names[c])
    && forall c :: 0 <= c < |names| ==>
         names[c] in t && |t[names[c]]| == |rows|
         && forall k :: 0 <= k < |rows| ==> HasCells(rows[k], |names|) && t[names[c]][k] == CleanCell(u, rows[k][c].value)
  }

  const SubsidyColumns: seq<string> := ["year", "subsidy"]
  const StaffColumns: seq<string> := ["year", "employees", "mean_salary"]

  predicate DistinctNames(names: seq<string>)
  {
    forall i, j :: 0 <= i < j < |names| ==> names[i] != names[j]
  }

  /** The column map a parser starts from, with every list empty. */
  function EmptyColumns(names: seq<string>): (m: map<string, Value>)
    ensures m.Keys == set c | 0 <= c < |names| :: names[c]
    ensures forall key :: key in m ==> m[key] == Strs([])
  {
    map c | c in names :: Strs([])
  }

  /** The column map once every row is appended: column `names[c]` holds
      cell `c` of every row, cleaned. */
  function Columns(u: Unicode, cells: seq<seq<string>>, names: seq<string>): (t: map<string, seq<string>>)
    requires forall k :: 0 <= k < |cells| ==> |cells[k]| == |names|
  {
    map name | name in names :: Column(u, cells, IndexOf(names, name))
  }

  /** The first position of `name` in `names`. */
  function IndexOf(names: seq<string>, name: string): (i: nat)
    requires name in names
    ensures i < |names| && names[i] == name
    ensures forall j :: 0 <= j < i ==> names[j] != name
  {
    if names[0] == name then 0 else 1 + IndexOf(names[1..], name)
  }

  /** The columns built from a table's cells are the cleaned cells of its rows. */
  lemma ColumnsFilled(u: Unicode, rows: seq<Row>, names: seq<string>, cells: seq<seq<string>>)
    requires DistinctNames(names)
    requires TableCells(rows, |names|) == Success(cells)
    ensures forall k :: 0 <= k < |cells| ==> |cells[k]| == |names|
    ensures FilledFrom(u, Columns(u, cells, names), names, rows)
  {
    CellsOfRows(rows, |names|, cells);
    var t := Columns(u, cells, names);
    assert t.Keys == (set c | 0 <= c < |names| :: names[c]) by {
      forall name | name in t ensures name in (set c | 0 <= c < |names| :: names[c]) {
        var i := IndexOf(names, name);
      }
    }
    forall c | 0 <= c < |names|
      ensures names[c] in t && |t[names[c]]| == |rows|
      ensures forall k :: 0 <= k < |rows| ==> HasCells(rows[k], |names|) && t[names[c]][k] == CleanCell(u, rows[k][c].value)
    {
      assert IndexOf(names, names[c]) == c;
      assert t[names[c]] == Column(u, cells, c);
      ColumnOfRows(u, rows, |names|, cells, c);
    }
  }

  /** The cell strings of a table, row by row. */
  lemma CellsOfRows(rows: seq<Row>, width: nat, cells: seq<seq<string>>)
    requires TableCells(rows, width) == Success(cells)
    ensures |cells| == |rows|
    ensures forall k :: 0 <= k < |rows| ==> HasCells(rows[k], width) && |cells[k]| == width
  {
    forall k | 0 <= k < |rows|
      ensures HasCells(rows[k], width) && |cells[k]| == width
    {
      assert RowCells(rows[k], width) == Success(cells[k]);
    }
  }

  /** One column of a table: cell `c` of every row, cleaned. */
  lemma ColumnOfRows(u: Unicode, rows: seq<Row>, width: nat, cells: seq<seq<string>>, c: nat)
    requires TableCells(rows, width) == Success(cells) && c < width
    requires forall k :: 0 <= k < |rows| ==> HasCells(rows[k], width) && |cells[k]| == width
    ensures forall k :: 0 <= k < |rows| ==> Column(u, cells, c)[k] == CleanCell(u, rows[k][c].value)
  {
    forall k | 0 <= k < |rows|
      ensures Column(u, cells, c)[k] == CleanCell(u, rows[k][c].value)
    {
      assert RowCells(rows[k], width) == Success(cells[k]);
      assert cells[k][c] == rows[k][c].value;
    }
  }

  lemma SubsidyColumnsDistinct()
    ensures DistinctNames(SubsidyColumns)
    ensures (set c | 0 <= c < |SubsidyColumns| :: SubsidyColumns[c]) == {"year", "subsidy"}
  {
    assert SubsidyColumns[0] == "year" && SubsidyColumns[1] == "subsidy";
  }

  lemma StaffColumnsDistinct()
    ensures DistinctNames(StaffColumns)
    ensures (set c | 0 <= c < |StaffColumns| :: StaffColumns[c]) == {"year", "employees", "mean_salary"}
  {
    assert StaffColumns[0] == "year" && StaffColumns[1] == "employees" && StaffColumns[2] == "mean_salary";
  }

  /** The branch both table parsers share when their `mat-table` exists: every
      row appended column by column, the whole map stored under one key. */
  function TableUnder(u: Unicode, rows: seq<Row>, names: seq<string>, key: string): (r: Result<map<string, Value>, Error>)
    requires DistinctNames(names)
    ensures r.Success? <==> forall k :: 0 <= k < |rows| ==> HasCells(rows[k], |names|)
    ensures r.Failure? ==> r.error.MissingCell? && r.error.column < |names|
    ensures r.Success? ==> r.value.Keys == {key} && r.value[key].Table?
                           && FilledFrom(u, r.value[key].columns, names, rows)
  {
    var cells :- TableCells(rows, |names|);
    ColumnsFilled(u, rows, names, cells);
    Success(map[key := Table(Columns(u, cells, names))])
  }

  /** `parse_subsidies`: without any `mat-table` it returns its column map
      itself, unwrapped; otherwise the first table under `subsidies`. */
  function ParseSubsidies(u: Unicode, tables: seq<seq<Row>>): (r: Result<map<string, Value>, Error>)
    ensures |tables| == 0 ==> r.Success? && r.value.Keys == {"year", "subsidy"}
                              && r.value["year"] == Strs([]) && r.value["subsidy"] == Strs([])
    ensures |tables| > 0 ==> (r.Success? <==> forall k :: 0 <= k < |tables[0]| ==> HasCells(tables[0][k], 2))
    ensures r.Failure? ==> r.error.MissingCell?
    ensures |tables| > 0 && r.Success? ==> r.value.Keys == {"subsidies"} && r.value["subsidies"].Table?
                                           && FilledFrom(u, r.value["subsidies"].columns, SubsidyColumns, tables[0])
  {
    SubsidyColumnsDistinct();
    if |tables| == 0 then Success(EmptyColumns(SubsidyColumns))
    else TableUnder(u, tables[0], SubsidyColumns, "subsidies")
  }

  /** `parse_staff`: without any `mat-table` it returns its column map itself,
      unwrapped; with exactly one it raises on `tabs[1]`; otherwise the second
      table under `staff`. */
  function ParseStaff(u: Unicode, tables: seq<seq<Row>>): (r: Result<map<string, Value>, Error>)
    ensures |tables| == 0 ==> r.Success? && r.value.Keys == {"year", "employees", "mean_salary"}
                              && forall key :: key in r.value ==> r.value[key] == Strs([])
    ensures |tables| == 1 ==> r == Failure(NoStaffTable)
    ensures |tables| > 1 ==> (r.Success? <==> forall k :: 0 <= k < |tables[1]| ==> HasCells(tables[1][k], 3))
    ensures r.Failure? ==> r.error.MissingCell? || r.error == NoStaffTable
    ensures |tables| > 1 && r.Success? ==> r.value.Keys == {"staff"} && r.value["staff"].Table?
                                           && FilledFrom(u, r.value["staff"].columns, StaffColumns, tables[1])
  {
    StaffColumnsDistinct();
    if |tables| == 0 then Success(EmptyColumns(StaffColumns))
    else if |tables| == 1 then Failure(NoStaffTable)
    else TableUnder(u, tables[1], StaffColumns, "staff")
  }

  // ---------------------------------------------------------------------
  // parse_info

  /** Every key a parser can produce. */
  const ParsedKeys: set<string> :=
    IdKeys + {"director", "authority", "subsidies", "staff", "year", "subsidy", "employees", "mean_salary"}

  /** `parse_info`: raises without an `app-other-information-tab`, then merges
      the identifier, director, authority, subsidy and staff results, a later
      one overriding an earlier one on a shared key. */
  function ParseInfo(u: Unicode, doc: Document): (r: Result<map<string, Value>, Error>)
    ensures !doc.hasInfoTab ==> r == Failure(NoInfoTab)
    ensures |doc.tables| == 1 ==> r.Failure?
    ensures r.Failure? ==> r.error.NoInfoTab? || r.error.NoValueSlot? || r.error.MissingCell? || r.error.NoStaffTable?
    ensures r.Success? <==> && doc.hasInfoTab
                            && ParseDirector(u, doc.divs).Success?
                            && ParseAuthority(u, doc.divs).Success?
                            && ParseSubsidies(u, doc.tables).Success?
                            && ParseStaff(u, doc.tables).Success?
    ensures r.Success? ==> r.value.Keys <= ParsedKeys
    ensures r.Success? ==> forall key :: key in IdKeys ==>
              (key in r.value <==> key in ParseInns(u, doc.divs))
              && (key in r.value ==> r.value[key] == ParseInns(u, doc.divs)[key])
    ensures r.Success? ==> Extends(r.value, ParseDirector(u, doc.divs).value)
    ensures r.Success? ==> Extends(r.value, ParseAuthority(u, doc.divs).value)
    ensures r.Success? ==> Extends(r.value, ParseStaff(u, doc.tables).value)
    ensures r.Success? ==> forall key :: key in ParseSubsidies(u, doc.tables).value && key !in ParseStaff(u, doc.tables).value ==>
              key in r.value && r.value[key] == ParseSubsidies(u, doc.tables).value[key]
    ensures r.Success? ==> r.value.Keys == ParseInns(u, doc.divs).Keys + ParseDirector(u, doc.divs).value.Keys
                                           + ParseAuthority(u, doc.divs).value.Keys
                                           + ParseSubsidies(u, doc.tables).value.Keys + ParseStaff(u, doc.tables).value.Keys
  {
    if !doc.hasInfoTab then Failure(NoInfoTab)
    else
      var inns := ParseInns(u, doc.divs);
      var director :- ParseDirector(u, doc.divs);
      var auth :- ParseAuthority(u, doc.divs);
      var subsidies :- ParseSubsidies(u, doc.tables);
      var staff :- ParseStaff(u, doc.tables);
      MergedParts(inns, director, auth, subsidies, staff);
      Success(inns + director + auth + subsidies + staff)
  }

  /** The merge `{**inns, **director}`, then `auth`, `subsidies` and `staff`:
      the five parser results occupy disjoint keys, except that the two table
      parsers may both produce `year` when there is no table at all, where
      the staff value wins. */
  lemma MergedParts(inns: map<string, Value>, director: map<string, Value>, auth: map<string, Value>,
                    subsidies: map<string, Value>, staff: map<string, Value>)
    requires inns.Keys <= IdKeys && director.Keys <= {"director"} && auth.Keys <= {"authority"}
    requires subsidies.Keys <= {"year", "subsidy", "subsidies"}
    requires staff.Keys <= {"year", "employees", "mean_salary", "staff"}
    ensures var m := inns + director + auth + subsidies + staff;
            && m.Keys <= ParsedKeys
            && (forall key :: key in IdKeys ==> (key in m <==> key in inns) && (key in m ==> m[key] == inns[key]))
            && Extends(m, director) && Extends(m, auth) && Extends(m, staff)
            && (forall key :: key in subsidies && key !in staff ==> key in m && m[key] == subsidies[key])
            && m.Keys == inns.Keys + director.Keys + auth.Keys + subsidies.Keys + staff.Keys
  {
    var m := inns + director + auth + subsidies + staff;
    assert forall key :: key in IdKeys ==> key !in director && key !in auth && key !in subsidies && key !in staff;
    assert "director" !in auth && "director" !in subsidies && "director" !in staff;
    assert "authority" !in subsidies && "authority" !in staff;
  }
}
