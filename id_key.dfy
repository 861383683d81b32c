/**
 * `findIdKey`: choose the identifier column from the header names of the
 * first row. Three rules, tried in order: an exact (lower-cased) synonym,
 * earliest in the synonym list and leftmost among equal headers; else the
 * leftmost header whose lower-cased name contains "id"; else the first header.
 */
module IdKey {
  import opened Wrappers
  import opened JsStrings
  import opened Rows

  /** The synonyms for an identifier column, in priority order. */
  const Candidates: seq<string> :=
    ["id", "idno", "id_number", "identifier", "studentid", "empid", "employeeid", "code"]

  /** `keys.map(k => k.toLowerCase())` */
  function Lowered(keys: seq<string>): (lower: seq<string>)
    ensures |lower| == |keys|
    ensures forall i :: 0 <= i < |keys| ==> lower[i] == ToLower(keys[i])
  {
    seq(|keys|, i requires 0 <= i < |keys| => ToLower(keys[i]))
  }

  /** `xs.indexOf(x)`: the leftmost position of `x`, `None` for -1. */
  function IndexOf(xs: seq<string>, x: string): (r: Option<nat>)
    ensures r.Some? ==> r.value < |xs| && xs[r.value] == x
    ensures r.Some? ==> forall j :: 0 <= j < r.value ==> xs[j] != x
    ensures r.None? <==> x !in xs
  {
    if xs == [] then None
    else if xs[0] == x then Some(0)
    else match IndexOf(xs[1..], x)
      case None => None
      case Some(i) => Some(i + 1)
  }

  /**
   * The first loop of `findIdKey`: the position in `lower` of the first
   * synonym of `cands`, in list order, that occurs there.
   */
  function SynonymIndex(lower: seq<string>, cands: seq<string>): (r: Option<nat>)
    ensures r.Some? ==> r.value < |lower| && lower[r.value] in cands
  {
    if cands == [] then None
    else match IndexOf(lower, cands[0])
      case Some(i) => Some(i)
      case None => SynonymIndex(lower, cands[1..])
  }

  /** The synonym scan finds nothing exactly when no name is a candidate. */
  lemma {:induction false} SynonymIndexNone(lower: seq<string>, cands: seq<string>)
    ensures SynonymIndex(lower, cands).None? <==> forall j :: 0 <= j < |lower| ==> lower[j] !in cands
  {
    if cands != [] {
      SynonymIndexNone(lower, cands[1..]);
      assert forall c :: c in cands ==> c == cands[0] || c in cands[1..];
    }
  }

  /** The second loop of `findIdKey`: the leftmost name that contains "id". */
  function FirstContainingId(lower: seq<string>): (r: Option<nat>)
    ensures r.Some? ==> r.value < |lower| && Contains(lower[r.value], "id")
    ensures r.Some? ==> forall j :: 0 <= j < r.value ==> !Contains(lower[j], "id")
    ensures r.None? <==> forall j :: 0 <= j < |lower| ==> !Contains(lower[j], "id")
  {
    if lower == [] then None
    else if Contains(lower[0], "id") then Some(0)
    else match FirstContainingId(lower[1..])
      case None => None
      case Some(i) => Some(i + 1)
  }

  /** The key `findIdKey` returns for these header names; `None` is JavaScript's `undefined`. */
  function IdKeyOf(keys: seq<string>): (r: Option<string>)
    ensures r.None? <==> keys == []
    ensures r.Some? ==> r.value in keys
  {
    var lower := Lowered(keys);
    match SynonymIndex(lower, Candidates)
    case Some(i) => Some(keys[i])
    case None =>
      match FirstContainingId(lower)
      case Some(i) => Some(keys[i])
      case None => if keys == [] then None else Some(keys[0])
  }

  /** `findIdKey(sampleRow)`, with its two scanning loops and early returns. */
  method FindIdKey(sampleRow: Row) returns (key: Option<string>)
    ensures key == IdKeyOf(KeysOf(sampleRow))
  {
    var keys := KeysOf(sampleRow);
    var lower := Lowered(keys);
    var pending := Candidates;
    while pending != []
      invariant SynonymIndex(lower, pending) == SynonymIndex(lower, Candidates)
    {
      var idx := IndexOf(lower, pending[0]);
      if idx.Some? {
        assert SynonymIndex(lower, Candidates) == idx;
        return Some(keys[idx.value]);
      }
      pending := pending[1..];
    }
    assert SynonymIndex(lower, Candidates) == None;
    for i := 0 to |lower|
      invariant forall j :: 0 <= j < i ==> !Contains(lower[j], "id")
    {
      if Contains(lower[i], "id") {
        assert FirstContainingId(lower) == Some(i);
        return Some(keys[i]);
      }
    }
    assert FirstContainingId(lower) == None;
    if |keys| == 0 {
      return None;
    }
    return Some(keys[0]);
  }

  /**
   * Generic form of the synonym rule: the winner is the name matching the
   * earliest candidate that matches anything, leftmost among equal names.
   */
  lemma {:induction false} SynonymIndexPicksEarliest(lower: seq<string>, cands: seq<string>, c: nat, i: nat)
    requires c < |cands| && i < |lower| && lower[i] == cands[c]
    requires forall j :: 0 <= j < |lower| ==> lower[j] !in cands[..c]
    requires forall j :: 0 <= j < i ==> lower[j] != cands[c]
    ensures SynonymIndex(lower, cands) == Some(i)
  {
    if c == 0 {
      var idx := IndexOf(lower, cands[0]);
      assert idx.Some? && idx.value == i;
    } else {
      assert cands[0] in cands[..c];
      assert IndexOf(lower, cands[0]).None?;
      assert cands[1..][..c - 1] == cands[1..c];
      SynonymIndexPicksEarliest(lower, cands[1..], c - 1, i);
    }
  }

  /** Headers whose lower-cased name equals none of `Candidates[..c]`. */
  ghost predicate NoEarlierSynonym(keys: seq<string>, c: nat)
    requires c <= |Candidates|
  {
    forall j :: 0 <= j < |keys| ==> ToLower(keys[j]) !in Candidates[..c]
  }

  /**
   * Synonym rule: if header `i` lower-cases to synonym `c`, no header matches an
   * earlier synonym and no header left of `i` matches synonym `c`, then header `i`
   * is chosen, wherever it stands among the columns.
   */
  lemma SynonymWins(keys: seq<string>, c: nat, i: nat)
    requires c < |Candidates| && i < |keys| && ToLower(keys[i]) == Candidates[c]
    requires NoEarlierSynonym(keys, c)
    requires forall j :: 0 <= j < i ==> ToLower(keys[j]) != Candidates[c]
    ensures IdKeyOf(keys) == Some(keys[i])
  {
    SynonymIndexPicksEarliest(Lowered(keys), Candidates, c, i);
  }

  /**
   * Substring fallback: when no header is a synonym, the leftmost header whose
   * lower-cased name contains "id" is chosen.
   */
  lemma SubstringFallback(keys: seq<string>, i: nat)
    requires forall j :: 0 <= j < |keys| ==> ToLower(keys[j]) !in Candidates
    requires i < |keys| && Contains(ToLower(keys[i]), "id")
    requires forall j :: 0 <= j < i ==> !Contains(ToLower(keys[j]), "id")
    ensures IdKeyOf(keys) == Some(keys[i])
  {
    var lower := Lowered(keys);
    SynonymIndexNone(lower, Candidates);
    var r := FirstContainingId(lower);
    assert r.Some?;
    assert !(r.value < i) && !(i < r.value);
  }

  /** Default: when no header is a synonym or contains "id", the first header is chosen. */
  lemma DefaultFirstHeader(keys: seq<string>)
    requires keys != []
    requires forall j :: 0 <= j < |keys| ==> ToLower(keys[j]) !in Candidates
    requires forall j :: 0 <= j < |keys| ==> !Contains(ToLower(keys[j]), "id")
    ensures IdKeyOf(keys) == Some(keys[0])
  {
    SynonymIndexNone(Lowered(keys), Candidates);
  }

  /** Whatever the rule, the key comes from the header, and only an empty header gives `undefined`. */
  lemma IdKeyIsHeader(row: Row)
    ensures row != [] ==> exists i :: 0 <= i < |row| && IdKeyOf(KeysOf(row)) == Some(row[i].0)
    ensures row == [] ==> IdKeyOf(KeysOf(row)) == None
  {
    if row != [] {
      var k := IdKeyOf(KeysOf(row)).value;
      var i :| 0 <= i < |KeysOf(row)| && KeysOf(row)[i] == k;
      assert row[i].0 == k;
    }
  }

  /** `["Name", "StudentID", "Code"]` yields `StudentID`: `studentid` precedes `code` in the list. */
  lemma ExampleStudentId()
    ensures IdKeyOf(["Name", "StudentID", "Code"]) == Some("StudentID")
  {
    var keys := ["Name", "StudentID", "Code"];
    assert ToLower(keys[0]) == "name" && ToLower(keys[1]) == "studentid" && ToLower(keys[2]) == "code";
    assert Candidates[..4] == ["id", "idno", "id_number", "identifier"];
    SynonymWins(keys, 4, 1);
  }

  /** `["Name", "InternalId"]` yields `InternalId` through the substring rule. */
  lemma ExampleInternalId()
    ensures IdKeyOf(["Name", "InternalId"]) == Some("InternalId")
  {
    var keys := ["Name", "InternalId"];
    assert ToLower(keys[0]) == "name" && ToLower(keys[1]) == "internalid";
    assert "name" !in Candidates && "internalid" !in Candidates;
    assert OccursAt("internalid", "id", 8);
    assert forall k :: OccursAt("name", "id", k) ==> "name"[k] == 'i';
    SubstringFallback(keys, 1);
  }
}
