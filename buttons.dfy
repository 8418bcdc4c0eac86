/**
 * The button payloads (`callback_data`) of main.py: the order in which
 * `handle_callback` tests them, the prefixes `edit_name_`, `edit_type_` and
 * `delete_` with their numeric suffix, and the keyboard `control_dots`
 * builds for each place.
 */
module Buttons {
  import opened Wrappers
  import PyInt
  import Store

  const EDIT_NAME_PREFIX := "edit_name_"
  const EDIT_TYPE_PREFIX := "edit_type_"
  const DELETE_PREFIX := "delete_"

  /**
   * A payload as `handle_callback` classifies it. The id of an edit or delete
   * button is `None` when `int(...)` raises on its suffix.
   */
  datatype Button =
    | AddDot
    | ControlDots
    | EditName(id: Option<int>)
    | EditType(id: Option<int>)
    | Delete(id: Option<int>)
    | DotsInKrasnoyarsk
    | MyDots
    | FavouriteDots
    | Unknown

  /**
   * The part of `s` before the first occurrence of `sep`, or all of `s`:
   * what Python's `(sep + s).split(sep)[1]` gives.
   */
  function FirstPiece(s: string, sep: string): (r: string)
    requires |sep| > 0
    ensures r <= s
    ensures r == s || sep <= s[|r|..]
    ensures forall i :: 0 <= i < |r| ==> !(sep <= s[i..])
    ensures sep[0] !in s ==> r == s
  {
    if |s| < |sep| then s
    else if sep <= s then assert s[0] == sep[0]; []
    else
      var rest := FirstPiece(s[1..], sep);
      assert forall i :: 1 <= i <= |s| ==> s[i..] == s[1..][i - 1..];
      [s[0]] + rest
  }

  /** `int(data.split(prefix)[1])` for a payload that starts with `prefix`. */
  function SuffixId(data: string, prefix: string): Option<int>
    requires |prefix| > 0 && prefix <= data
  {
    PyInt.ParseInt(FirstPiece(data[|prefix|..], prefix))
  }

  /** How `handle_callback` reads a payload: the exact tags and the three prefixes, in the order `handle_callback` tests them. */
  function ParseButton(data: string): (r: Button)
    ensures r == AddDot <==> data == "add_dot"
    ensures r == ControlDots <==> data == "control_dots"
    ensures r.EditName? <==> EDIT_NAME_PREFIX <= data
    ensures r.EditType? <==> EDIT_TYPE_PREFIX <= data
    ensures r.Delete? <==> DELETE_PREFIX <= data
    ensures r == DotsInKrasnoyarsk <==> data == "dots_in_krasnoyarsk"
    ensures r == MyDots <==> data == "my_dots"
    ensures r == FavouriteDots <==> data == "favourite_dots"
    ensures r.EditName? ==> r.id == SuffixId(data, EDIT_NAME_PREFIX)
    ensures r.EditType? ==> r.id == SuffixId(data, EDIT_TYPE_PREFIX)
    ensures r.Delete? ==> r.id == SuffixId(data, DELETE_PREFIX)
  {
    PrefixesExclusive(data);
    if data == "add_dot" then AddDot
    else if data == "control_dots" then ControlDots
    else if EDIT_NAME_PREFIX <= data then EditName(SuffixId(data, EDIT_NAME_PREFIX))
    else if EDIT_TYPE_PREFIX <= data then EditType(SuffixId(data, EDIT_TYPE_PREFIX))
    else if DELETE_PREFIX <= data then Delete(SuffixId(data, DELETE_PREFIX))
    else if data == "dots_in_krasnoyarsk" then DotsInKrasnoyarsk
    else if data == "my_dots" then MyDots
    else if data == "favourite_dots" then FavouriteDots
    else Unknown
  }

  /** No payload has two of the prefixes, and no exact tag has any. */
  lemma PrefixesExclusive(data: string)
    ensures !(EDIT_NAME_PREFIX <= data && EDIT_TYPE_PREFIX <= data)
    ensures !(EDIT_NAME_PREFIX <= data && DELETE_PREFIX <= data)
    ensures !(EDIT_TYPE_PREFIX <= data && DELETE_PREFIX <= data)
    ensures data in {"add_dot", "control_dots", "dots_in_krasnoyarsk", "my_dots", "favourite_dots"} ==>
      !(EDIT_NAME_PREFIX <= data) && !(EDIT_TYPE_PREFIX <= data) && !(DELETE_PREFIX <= data)
  {
    if EDIT_NAME_PREFIX <= data {
      assert data[5] == 'n';
      assert data[1] == 'd';
    }
    if EDIT_TYPE_PREFIX <= data {
      assert data[1] == 'd';
    }
    if DELETE_PREFIX <= data {
      assert data[1] == 'e';
    }
  }

  /** The three buttons `control_dots` attaches to the place with id `idDot`. */
  datatype PlaceButtons = PlaceButtons(editName: string, editType: string, delete: string)

  function ButtonsFor(idDot: int): PlaceButtons {
    var id := PyInt.ShowInt(idDot);
    PlaceButtons(EDIT_NAME_PREFIX + id, EDIT_TYPE_PREFIX + id, DELETE_PREFIX + id)
  }

  /** The keyboards of `control_dots`, one per row, in the order of `rows`. */
  function Keyboards(rows: seq<Store.Place>): seq<PlaceButtons> {
    seq(|rows|, i requires 0 <= i < |rows| => ButtonsFor(rows[i].idDot))
  }

  /** The loop of `control_dots`: one keyboard per row, for that row's id. */
  method BuildKeyboards(rows: seq<Store.Place>) returns (kbs: seq<PlaceButtons>)
    ensures kbs == Keyboards(rows)
  {
    kbs := [];
    var i := 0;
    while i < |rows|
      invariant 0 <= i <= |rows|
      invariant kbs == Keyboards(rows[..i])
    {
      assert rows[..i + 1] == rows[..i] + [rows[i]];
      kbs := kbs + [ButtonsFor(rows[i].idDot)];
      i := i + 1;
    }
    assert rows[..i] == rows;
  }

  /** The decimal rendering of an id holds no letter, so no prefix occurs inside it. */
  lemma FirstPieceOfId(idDot: int, sep: string)
    requires |sep| > 0 && !PyInt.IsDigit(sep[0]) && sep[0] != '-'
    ensures FirstPiece(PyInt.ShowInt(idDot), sep) == PyInt.ShowInt(idDot)
  {
  }

  /** Pressing a button that `control_dots` made acts on the place it was made for. */
  lemma ParseButtonsFor(idDot: int)
    ensures ParseButton(ButtonsFor(idDot).editName) == EditName(Some(idDot))
    ensures ParseButton(ButtonsFor(idDot).editType) == EditType(Some(idDot))
    ensures ParseButton(ButtonsFor(idDot).delete) == Delete(Some(idDot))
  {
    var id := PyInt.ShowInt(idDot);
    PyInt.ParseIntShowInt(idDot);
    FirstPieceOfId(idDot, EDIT_NAME_PREFIX);
    FirstPieceOfId(idDot, EDIT_TYPE_PREFIX);
    FirstPieceOfId(idDot, DELETE_PREFIX);
    assert (EDIT_NAME_PREFIX + id)[|EDIT_NAME_PREFIX|..] == id;
    assert (EDIT_TYPE_PREFIX + id)[|EDIT_TYPE_PREFIX|..] == id;
    assert (DELETE_PREFIX + id)[|DELETE_PREFIX|..] == id;
  }

  /** A suffix that is not a number is refused, e.g. `edit_name_abc`. */
  lemma ParseButtonBadSuffix()
    ensures ParseButton("edit_name_abc") == EditName(None)
    ensures ParseButton("delete_") == Delete(None)
  {
    assert FirstPiece("abc", EDIT_NAME_PREFIX) == "abc";
    PyInt.ParseIntNeedsDigit("abc");
    assert ("delete_")[|DELETE_PREFIX|..] == [];
  }

  /** `split` cuts at the next occurrence of the prefix: `edit_name_5edit_name_6` edits place 5. */
  lemma ParseButtonRepeatedPrefix()
    ensures ParseButton("edit_name_5edit_name_6") == EditName(Some(5))
  {
    var rest := "5edit_name_6";
    assert "edit_name_5edit_name_6"[|EDIT_NAME_PREFIX|..] == rest;
    assert FirstPiece(rest[1..], EDIT_NAME_PREFIX) == [];
    assert FirstPiece(rest, EDIT_NAME_PREFIX) == "5";
    PyInt.ParseIntShowInt(5);
  }
}
