/**
 * Tag names as the edit and create forms submit them (a comma-separated
 * list) and tag lookup by name in the tag table. A tag's id is its position
 * in the table.
 */
module Tags {
  import opened Text
  import opened Wrappers

  /** `n` is the non-empty stripped form of one of the pieces. */
  predicate KeptFrom(n: string, pieces: seq<string>) {
    n != [] && exists k :: 0 <= k < |pieces| && Strip(pieces[k]) == n
  }

  /**
   * The names kept from the pieces of the list: each piece is stripped and
   * the empty ones are dropped (`if name` before and after the strip).
   */
  function NamesOf(pieces: seq<string>): (names: set<string>)
    ensures forall n :: n in names <==> KeptFrom(n, pieces)
  {
    if pieces == [] then {}
    else
      var piece := pieces[0];
      var here := if piece != [] && Strip(piece) != [] then {Strip(piece)} else {};
      var names := here + NamesOf(pieces[1..]);
      assert forall n :: n in names <==> KeptFrom(n, pieces) by {
        forall n | KeptFrom(n, pieces) ensures n in names {
          var k :| 0 <= k < |pieces| && Strip(pieces[k]) == n;
          if k > 0 {
            assert KeptFrom(n, pieces[1..]) by { assert Strip(pieces[1..][k - 1]) == n; }
          } else {
            assert piece != [] by { assert Strip(piece)[0] in Strip(piece); }
          }
        }
        forall n | n in NamesOf(pieces[1..]) ensures KeptFrom(n, pieces) {
          var k :| 0 <= k < |pieces[1..]| && Strip(pieces[1..][k]) == n;
          assert Strip(pieces[k + 1]) == n;
        }
      }
      names
  }

  /**
   * The set of names parsed from the submitted list: every name is
   * non-empty, has no comma and no whitespace at either end, and it is the
   * stripped form of one of the comma-separated pieces.
   */
  function ParseTagNames(csv: string): (names: set<string>)
    ensures forall n :: n in names ==> n != [] && ',' !in n && Trimmed(n)
    ensures forall n :: n in names <==> KeptFrom(n, Split(csv, ','))
  {
    var pieces := Split(csv, ',');
    NamesWithoutSeparator(pieces, ',');
    NamesOf(pieces)
  }

  /** A name kept from pieces without `sep` has no `sep` and no whitespace at either end. */
  lemma NamesWithoutSeparator(pieces: seq<string>, sep: char)
    requires forall k :: 0 <= k < |pieces| ==> sep !in pieces[k]
    ensures forall n :: n in NamesOf(pieces) ==> n != [] && sep !in n && Trimmed(n)
  {
    forall n | n in NamesOf(pieces) ensures sep !in n {
      var k :| 0 <= k < |pieces| && Strip(pieces[k]) == n;
      assert sep !in pieces[k];
    }
  }

  /** `Tag.query.filter_by(name=name).first()`: the id of the first tag with that name. */
  function FindTag(table: seq<string>, name: string): (r: Option<nat>)
    ensures r.Some? ==> r.value < |table| && table[r.value] == name
                        && forall j :: 0 <= j < r.value ==> table[j] != name
    ensures r.None? <==> name !in table
  {
    if table == [] then None
    else if table[0] == name then Some(0)
    else match FindTag(table[1..], name)
      case None => None
      case Some(i) => Some(i + 1)
  }

  /** Appending a tag to the table changes no earlier lookup and makes its own name found. */
  lemma {:induction false} FindTagAppend(table: seq<string>, added: string, name: string)
    ensures FindTag(table + [added], name) ==
              if FindTag(table, name).Some? then FindTag(table, name)
              else if added == name then Some(|table|)
              else None
  {
    if table != [] && table[0] != name {
      assert (table + [added])[1..] == table[1..] + [added];
      FindTagAppend(table[1..], added, name);
    }
  }
}
