/**
 * The store of a multi-diff (`MultiDiff.diff_info`): for every base line
 * number, the diff lines registered there, grouped by their first character
 * (`-` or `+`), each list in registration order.
 */
module Store {

  /** One registered diff line: its text, the file it came from (`meta`) and its squigly. */
  datatype Entry = Entry(text: string, meta: string, squigly: string)

  /** `diff_info`: line number, then first character of the diff line, then entries. */
  type Info = map<int, map<char, seq<Entry>>>

  /** `diff_info.get(n, {})`. */
  function Kinds(info: Info, n: int): map<char, seq<Entry>>
  {
    if n in info then info[n] else map[]
  }

  /** The entries registered at line `n` under first character `kind` (none if there is no such list). */
  function EntriesOf(info: Info, n: int, kind: char): seq<Entry>
  {
    if kind in Kinds(info, n) then Kinds(info, n)[kind] else []
  }

  /** Line `n` has a non-empty entry in `diff_info`, as Python's truth test on the dict sees it. */
  predicate HasRecords(info: Info, n: int)
  {
    Kinds(info, n) != map[]
  }

  /** Every entry sits under its own first character. */
  ghost predicate WellFormed(info: Info)
  {
    forall n, kind :: n in info && kind in info[n] ==>
      forall e :: e in info[n][kind] ==> e.text != [] && e.text[0] == kind
  }

  /**
   * `parse_line`: `diff_info.setdefault(line_no, {}).setdefault(key, [])`
   * then appends the entry, where `key` is the first character of the diff
   * line. Any first character is accepted (the source only logs one that is
   * neither `-` nor `+`).
   */
  function Register(info: Info, lineNo: int, e: Entry): Info
    requires e.text != []
  {
    var inner := Kinds(info, lineNo);
    info[lineNo := inner[e.text[0] := EntriesOf(info, lineNo, e.text[0]) + [e]]]
  }

  /**
   * Registering appends exactly one entry, to the list of its line number
   * and first character, creating that list (and the line's dict) if
   * needed; every other line, every other list and every earlier entry is
   * unchanged.
   */
  lemma RegisterAppendsOne(info: Info, lineNo: int, e: Entry, n: int, kind: char)
    requires e.text != []
    ensures EntriesOf(Register(info, lineNo, e), n, kind) ==
            EntriesOf(info, n, kind) + (if n == lineNo && kind == e.text[0] then [e] else [])
    ensures Register(info, lineNo, e).Keys == info.Keys + {lineNo}
    ensures Kinds(Register(info, lineNo, e), lineNo).Keys == Kinds(info, lineNo).Keys + {e.text[0]}
    ensures n != lineNo ==> Kinds(Register(info, lineNo, e), n) == Kinds(info, n)
  {
  }

  /** After registering, the line has records, whatever the first character of the entry. */
  lemma RegisterHasRecords(info: Info, lineNo: int, e: Entry)
    requires e.text != []
    ensures HasRecords(Register(info, lineNo, e), lineNo)
    ensures EntriesOf(Register(info, lineNo, e), lineNo, e.text[0]) != []
  {
    RegisterAppendsOne(info, lineNo, e, lineNo, e.text[0]);
  }

  /** Registering keeps every entry under its own first character. */
  lemma RegisterWellFormed(info: Info, lineNo: int, e: Entry)
    requires e.text != [] && WellFormed(info)
    ensures WellFormed(Register(info, lineNo, e))
  {
    var r := Register(info, lineNo, e);
    forall n, kind | n in r && kind in r[n]
      ensures forall x: Entry :: x in r[n][kind] ==> x.text != [] && x.text[0] == kind
    {
      RegisterAppendsOne(info, lineNo, e, n, kind);
      assert r[n][kind] == EntriesOf(r, n, kind);
    }
  }
}
