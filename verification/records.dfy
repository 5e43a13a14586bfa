/** Records of the scraper: Python dictionaries keyed by strings. */
module Records {

  /** The values a record holds: a string, a list of strings (a bare table
      column), a table of named columns, or a scalar pass-through value of the
      register (a number, a boolean or null) that is compared and hashed but
      never inspected. */
  datatype Value =
    | Str(s: string)
    | Strs(items: seq<string>)
    | Table(columns: map<string, seq<string>>)
    | Opaque(id: int)

  /** A school of the register, or a result record once it is enriched. */
  type Record = map<string, Value>

  /** The exceptions that can escape the modelled code. */
  datatype Error =
    | KeyError(key: string)          // `d[key]` on a dict without the key
    | NoInfoTab                      // `find_all("app-other-information-tab")[0]`
    | NoValueSlot(key: string)       // `div.parent.contents[1].string` is missing
    | MissingCell(column: nat)       // `cells[column].string` is missing
    | NoStaffTable                   // `tabs[1]` with a single `mat-table`
    | PanelWaitFailed                // the wait or the click inside `get_info_soup` raised
    | UnexpectedFileName(name: string)
    | NoRegisterFile                 // `re.match` on `None` when no register file exists
    | UndefinedName(name: string)    // NameError
    | Unhashable                     // a list or a dict used as a dict key (TypeError)

  const MainUrl: string := "main_url"
  const DetailsUrl: string := "details_url"

  /** The value can be a Python dict key: a list or a dict raises
      `TypeError: unhashable type`, strings and scalars do not. */
  predicate Hashable(v: Value)
  {
    v.Str? || v.Opaque?
  }

  /** The record has a `main_url` that can be a dict key. */
  predicate HashableUrl(r: Record)
  {
    MainUrl in r && Hashable(r[MainUrl])
  }

  /** The key set a sequence of records is de-duplicated on: their `main_url` values. */
  function MainUrls(rs: seq<Record>): (urls: set<Value>)
    requires forall k :: 0 <= k < |rs| ==> MainUrl in rs[k]
    ensures forall k :: 0 <= k < |rs| ==> rs[k][MainUrl] in urls
    ensures forall v :: v in urls ==> exists k :: 0 <= k < |rs| && rs[k][MainUrl] == v
  {
    set k | 0 <= k < |rs| :: rs[k][MainUrl]
  }

  /** `big` holds every entry of `small`. */
  predicate Extends(big: Record, small: Record)
  {
    forall key :: key in small ==> key in big && big[key] == small[key]
  }

  /** No two records share a `main_url`. */
  ghost predicate DistinctMainUrls(rs: seq<Record>)
  {
    && (forall k :: 0 <= k < |rs| ==> MainUrl in rs[k])
    && (forall k, l :: 0 <= k < l < |rs| ==> rs[k][MainUrl] != rs[l][MainUrl])
  }
}
