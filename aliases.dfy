/**
 * The alias search of `recognize_distribution` (app.py:89-111): the
 * lowercased transcript is scanned against an ordered table of spoken forms,
 * and the canonical name of the first form found in it is the answer.
 */
module Aliases {
  import opened Wrappers
  import opened Text
  import D = Distributions

  /** (alias, canonical name) pairs, in the dictionary's insertion order. */
  type Table = seq<(string, string)>

  const AliasTable: Table := [
    ("uniform", "uniform"),
    ("rayleigh", "rayleigh"),
    ("really", "rayleigh"),
    ("raili", "rayleigh"),
    ("binomial", "binomial"),
    ("binom", "binomial"),
    ("poisson", "poisson"),
    ("pois", "poisson"),
    ("poison", "poisson"),
    ("laplace", "laplacian"),
    ("lapla", "laplacian"),
    ("laplacian", "laplacian"),
    ("gaussian", "gaussian"),
    ("gajan", "gaussian")
  ]

  /** Entry `i` is the first one whose alias occurs in `text`. */
  ghost predicate IsFirstMatch(table: Table, text: string, i: int) {
    0 <= i < |table| && Occurs(table[i].0, text) &&
    forall j :: 0 <= j < i ==> !Occurs(table[j].0, text)
  }

  /**
   * The specification of the search: the canonical name of the first entry
   * whose alias occurs in `text`, or None when none does.
   */
  function FirstMatch(table: Table, text: string): (r: Option<string>)
    ensures r.None? <==> forall i :: 0 <= i < |table| ==> !Occurs(table[i].0, text)
    ensures r.Some? ==> exists i :: IsFirstMatch(table, text, i) && r.value == table[i].1
  {
    if table == [] then None
    else if Contains(text, table[0].0) then
      assert IsFirstMatch(table, text, 0);
      Some(table[0].1)
    else
      var r := FirstMatch(table[1..], text);
      assert forall i :: 1 <= i < |table| ==> table[i] == table[1..][i - 1];
      assert r.Some? ==> exists i :: IsFirstMatch(table, text, i) && r.value == table[i].1 by {
        if r.Some? {
          var k :| IsFirstMatch(table[1..], text, k) && r.value == table[1..][k].1;
          assert IsFirstMatch(table, text, k + 1);
        }
      }
      r
  }

  /** The `for alias, standard_name in alias_map.items()` loop with its early return. */
  method FindAlias(text: string) returns (r: Option<string>)
    ensures r == FirstMatch(AliasTable, text)
  {
    var i := 0;
    while i < |AliasTable|
      invariant 0 <= i <= |AliasTable|
      invariant FirstMatch(AliasTable, text) == FirstMatch(AliasTable[i..], text)
    {
      var (alias, name) := AliasTable[i];
      if Contains(text, alias) {
        return Some(name);
      }
      assert AliasTable[i..][1..] == AliasTable[i + 1..];
      i := i + 1;
    }
    return None;
  }

  /**
   * `recognize_distribution()` with the microphone and the speech service as
   * its input: None when capture or transcription failed (no microphone,
   * service error, nothing understood), otherwise the transcript, which is
   * lowercased and searched.
   */
  function Recognize(transcript: Option<string>): (r: Option<string>)
    ensures transcript.None? ==> r.None?
    ensures transcript.Some? ==>
      (r.None? <==> forall i :: 0 <= i < |AliasTable| ==> !Occurs(AliasTable[i].0, Lower(transcript.value)))
    ensures r.Some? ==> exists i :: IsFirstMatch(AliasTable, Lower(transcript.value), i) && r.value == AliasTable[i].1
  {
    match transcript
    case None => None
    case Some(text) => FirstMatch(AliasTable, Lower(text))
  }

  /** Every canonical name is itself an alias of the table, mapped to itself. */
  lemma CanonicalNamesAreAliases(d: D.Dist)
    ensures exists i :: 0 <= i < |AliasTable| && AliasTable[i] == (D.Name(d), D.Name(d))
  {
    match d
    case Uniform => assert AliasTable[0] == (D.Name(d), D.Name(d));
    case Rayleigh => assert AliasTable[1] == (D.Name(d), D.Name(d));
    case Binomial => assert AliasTable[4] == (D.Name(d), D.Name(d));
    case Poisson => assert AliasTable[6] == (D.Name(d), D.Name(d));
    case Laplacian => assert AliasTable[11] == (D.Name(d), D.Name(d));
    case Gaussian => assert AliasTable[12] == (D.Name(d), D.Name(d));
  }

  /** Every entry maps to one of the six canonical names. */
  lemma TableTargetsCanonical(i: int)
    requires 0 <= i < |AliasTable|
    ensures D.Parse(AliasTable[i].1).Some?
  {
  }

  /** No alias is empty, and no two entries share an alias (the table is a dictionary). */
  lemma TableWellFormed()
    ensures forall i :: 0 <= i < |AliasTable| ==> AliasTable[i].0 != []
    ensures forall i, j :: 0 <= i < j < |AliasTable| ==> AliasTable[i].0 != AliasTable[j].0
  {
  }

  /**
   * Whatever the search returns is a canonical name, so it is accepted by the
   * dispatch of `generate_pdf_cdf`.
   */
  lemma ResolvedNameIsCanonical(text: string)
    ensures FirstMatch(AliasTable, text).Some? ==> D.Parse(FirstMatch(AliasTable, text).value).Some?
  {
    var r := FirstMatch(AliasTable, text);
    if r.Some? {
      var i :| IsFirstMatch(AliasTable, text, i) && r.value == AliasTable[i].1;
      TableTargetsCanonical(i);
    }
  }

  /** Text that contains a canonical name is always resolved to something. */
  lemma CanonicalNameResolves(d: D.Dist, text: string)
    requires Occurs(D.Name(d), text)
    ensures FirstMatch(AliasTable, text).Some?
  {
    CanonicalNamesAreAliases(d);
  }

  /** Empty text resolves to nothing, since every alias is non-empty. */
  lemma EmptyTextUnresolved()
    ensures FirstMatch(AliasTable, "") == None
  {
    TableWellFormed();
    forall i | 0 <= i < |AliasTable|
      ensures !Occurs(AliasTable[i].0, "")
    {
      OccursEmpty(AliasTable[i].0, "");
    }
  }

  /**
   * The search stops at the first match: when the alias of entry `i` occurs,
   * the answer comes from entry `i` or from an earlier one.
   */
  lemma {:induction false} EarlierEntryWins(table: Table, text: string, i: int)
    requires 0 <= i < |table| && Occurs(table[i].0, text)
    ensures exists k :: 0 <= k <= i && IsFirstMatch(table, text, k) && FirstMatch(table, text) == Some(table[k].1)
  {
    var r := FirstMatch(table, text);
    var k :| IsFirstMatch(table, text, k) && r.value == table[k].1;
  }

  /** Text holding both "uniform" and "poisson" resolves to "uniform", the first entry. */
  lemma UniformBeforePoisson(text: string)
    requires Occurs("uniform", text) && Occurs("poisson", text)
    ensures FirstMatch(AliasTable, text) == Some("uniform")
  {
    EarlierEntryWins(AliasTable, text, 0);
  }

  /**
   * An entry whose alias contains the alias of an earlier entry is never the
   * first match: any text holding it holds the earlier alias too.
   */
  lemma ShadowedEntryNeverFirst(table: Table, text: string, j: int, i: int)
    requires 0 <= j < i < |table| && Occurs(table[j].0, table[i].0)
    ensures !IsFirstMatch(table, text, i)
  {
    if Occurs(table[i].0, text) {
      OccursTransitive(table[j].0, table[i].0, text);
    }
  }

  /** Dropping an entry that an earlier alias shadows leaves every answer unchanged. */
  lemma {:induction false} DropShadowed(table: Table, text: string, j: int, i: int)
    requires 0 <= j < i < |table| && Occurs(table[j].0, table[i].0)
    ensures FirstMatch(table, text) == FirstMatch(table[..i] + table[i + 1..], text)
  {
    var rest := table[..i] + table[i + 1..];
    assert forall m :: 0 <= m < i ==> rest[m] == table[m];
    assert forall m :: i <= m < |rest| ==> rest[m] == table[m + 1];
    var r := FirstMatch(table, text);
    if r.Some? {
      var k :| IsFirstMatch(table, text, k) && r.value == table[k].1;
      ShadowedEntryNeverFirst(table, text, j, i);
      if k < i {
        assert IsFirstMatch(rest, text, k);
        FirstMatchAt(rest, text, k);
      } else {
        assert rest[k - 1] == table[k];
        assert IsFirstMatch(rest, text, k - 1);
        FirstMatchAt(rest, text, k - 1);
      }
    }
  }

  /**
   * In this table "poison" (behind "pois") and "laplacian" (behind "lapla")
   * are such entries: they are never the first match, and the search over
   * the table without them gives the same answer for every text.
   */
  lemma ShadowedAliases(text: string)
    ensures !IsFirstMatch(AliasTable, text, 8) && !IsFirstMatch(AliasTable, text, 11)
    ensures FirstMatch(AliasTable, text) ==
      FirstMatch(AliasTable[..8] + AliasTable[9..11] + AliasTable[12..], text)
  {
    assert OccursAt(AliasTable[7].0, AliasTable[8].0, 0);
    ShadowedEntryNeverFirst(AliasTable, text, 7, 8);
    assert OccursAt(AliasTable[10].0, AliasTable[11].0, 0);
    ShadowedEntryNeverFirst(AliasTable, text, 10, 11);
    DropShadowed(AliasTable, text, 10, 11);
    var shorter := AliasTable[..11] + AliasTable[12..];
    assert shorter[7] == AliasTable[7] && shorter[8] == AliasTable[8];
    DropShadowed(shorter, text, 7, 8);
    assert shorter[..8] + shorter[9..] == AliasTable[..8] + AliasTable[9..11] + AliasTable[12..];
  }

  /** Conversely, when entry `i` is the first match, the search answers with its name. */
  lemma FirstMatchAt(table: Table, text: string, i: int)
    requires IsFirstMatch(table, text, i)
    ensures FirstMatch(table, text) == Some(table[i].1)
  {
    var r := FirstMatch(table, text);
    var k :| IsFirstMatch(table, text, k) && r.value == table[k].1;
    assert !(k < i) && !(i < k);
  }

  /** "i think it's raili" resolves to "rayleigh" through the mis-transcription "raili". */
  lemma RailiTranscript()
    ensures FirstMatch(AliasTable, "i think it's raili") == Some("rayleigh")
  {
    var text := "i think it's raili";
    CharPinsOccurrence("uniform", text, 0, {});
    CharPinsOccurrence("rayleigh", text, 2, {});
    CharPinsOccurrence("really", text, 1, {});
    assert OccursAt("raili", text, 13);
    FirstMatchAt(AliasTable, text, 3);
  }

  /** "poison distribution please" resolves to "poisson" through "pois", before "poison" is tried. */
  lemma PoisonTranscript()
    ensures FirstMatch(AliasTable, "poison distribution please") == Some("poisson")
  {
    var text := "poison distribution please";
    CharPinsOccurrence("uniform", text, 3, {});
    CharPinsOccurrence("rayleigh", text, 2, {});
    CharPinsOccurrence("really", text, 5, {});
    assert text[12] != "raili"[1];
    CharPinsOccurrence("raili", text, 0, {11});
    CharPinsOccurrence("binomial", text, 4, {});
    CharPinsOccurrence("binom", text, 4, {});
    assert text[5] != "poisson"[5];
    CharPinsOccurrence("poisson", text, 0, {0, 20});
    assert OccursAt("pois", text, 0);
    FirstMatchAt(AliasTable, text, 7);
  }
}
