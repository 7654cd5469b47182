/** The boot guard: a recorded member set may grow, never lose or rename a member. */
module MemberGuard {
  import opened Options
  import opened Text

  /** What `for m in $have` visits under IFS=',': an empty last field is dropped. */
  function ShellFields(s: string): seq<string> {
    var fields := SplitOn(s, ',');
    if fields[|fields| - 1] == "" then fields[..|fields| - 1] else fields
  }

  /** The `case` pattern of the guard: is ",field," somewhere in ",want,"? */
  predicate Listed(field: string, want: string) {
    Contains("," + want + ",", "," + field + ",")
  }

  lemma OccursShift(pre: string, rest: string, needle: string, k: nat)
    ensures OccursAt(pre + rest, needle, |pre| + k) <==> OccursAt(rest, needle, k)
  {
    if k + |needle| <= |rest| {
      assert (pre + rest)[|pre| + k..|pre| + k + |needle|] == rest[k..k + |needle|];
    }
  }

  /** At the front, an occurrence is the first field. */
  lemma HeadOccurrence(field: string, want: string)
    requires ',' !in field
    ensures OccursAt("," + want + ",", "," + field + ",", 0) <==> field == want[..IndexOf(want, ',')]
  {
    var hay, needle := "," + want + ",", "," + field + ",";
    if OccursAt(hay, needle, 0) {
      var n := |field|;
      assert forall j | 0 <= j < |needle| :: hay[j] == needle[j];
      assert forall j | 0 <= j < n :: want[j] == needle[j + 1] == field[j];
      assert needle[n + 1] == ',';
      IndexOfUnique(want, ',', n);
      assert field == want[..n];
    }
    if field == want[..IndexOf(want, ',')] {
      assert hay[..|needle|] == needle;
    }
  }

  /** Behind the front, an occurrence starts at the first comma or later. */
  lemma TailOccurrence(field: string, want: string, i: nat)
    requires i > 0 && OccursAt("," + want + ",", "," + field + ",", i)
    ensures IndexOf(want, ',') < |want| && IndexOf(want, ',') + 1 <= i
  {
    var hay, needle := "," + want + ",", "," + field + ",";
    assert hay[i..i + |needle|][0] == needle[0] == ',';
    assert hay[i] == want[i - 1];
  }

  lemma Regroup(a: string, b: string)
    ensures "," + (a + "," + b) + "," == ("," + a) + ("," + b + ",")
  {
  }

  /** For a field without commas the substring search is membership in the list. */
  lemma {:induction false} ListedIsMember(field: string, want: string)
    requires ',' !in field
    ensures Listed(field, want) <==> field in SplitOn(want, ',')
    decreases |want|
  {
    var hay, needle := "," + want + ",", "," + field + ",";
    var c := IndexOf(want, ',');
    HeadOccurrence(field, want);
    if c == |want| {
      assert want[..c] == want;
      if Listed(field, want) {
        var i :| 0 <= i <= |hay| && OccursAt(hay, needle, i);
        if i > 0 {
          TailOccurrence(field, want, i);
        }
      }
    } else {
      ListedIsMember(field, want[c + 1..]);
      SplitAt(want, ',');
      ListedInRest(field, want[..c], want[c + 1..]);
      assert SplitOn(want, ',') == [want[..c]] + SplitOn(want[c + 1..], ',');
    }
  }

  lemma ListedInRest(field: string, head: string, rest: string)
    requires IndexOf(head + "," + rest, ',') == |head|
    ensures var want := head + "," + rest;
            Listed(field, want) <==> OccursAt("," + want + ",", "," + field + ",", 0) || Listed(field, rest)
  {
    var want := head + "," + rest;
    var hay, needle := "," + want + ",", "," + field + ",";
    var pre, tail := "," + head, "," + rest + ",";
    Regroup(head, rest);
    if Listed(field, want) {
      var i :| 0 <= i <= |hay| && OccursAt(hay, needle, i);
      if i > 0 {
        TailOccurrence(field, want, i);
        OccursShift(pre, tail, needle, i - |pre|);
      }
    }
    if Listed(field, rest) {
      var k :| 0 <= k <= |tail| && OccursAt(tail, needle, k);
      OccursShift(pre, tail, needle, k);
    }
  }

  /** Exit status and record of the guard; `have` is the record's text, if there is one. */
  method Guard(have: Option<string>, memberDir: bool, want: string) returns (accept: bool, record: Option<string>)
    ensures have.Some? ==> record == have && (accept <==> forall f | f in ShellFields(have.value) :: f in SplitOn(want, ','))
    ensures have.None? ==> accept && record == if memberDir then None else Some(want)
  {
    record := have;
    if have.None? {
      return true, if memberDir then None else Some(want);
    }
    if have.value == want {
      return true, have;
    }
    var fields := ShellFields(have.value);
    var grew := true;
    for i := 0 to |fields|
      invariant grew <==> forall f | f in fields[..i] :: f in SplitOn(want, ',')
    {
      var m := fields[i];
      assert m in fields;
      FieldsFree(have.value, ',', m);
      ListedIsMember(m, want);
      assert fields[..i + 1] == fields[..i] + [m];
      if !Listed(m, want) {
        grew := false;
      }
    }
    assert fields[..|fields|] == fields;
    accept := grew;
  }

  // ---- records are rendered declarations ----------------------------------------------

  /** On rendered declarations the guard accepts exactly when every recorded entry is still declared. */
  lemma GuardMeansSuperset(recorded: seq<string>, declared: seq<string>)
    requires recorded != [] && declared != []
    requires forall i | 0 <= i < |recorded| :: ',' !in recorded[i] && recorded[i] != ""
    requires forall i | 0 <= i < |declared| :: ',' !in declared[i]
    ensures (forall f | f in ShellFields(JoinWith(recorded, ',')) :: f in SplitOn(JoinWith(declared, ','), ','))
       <==> (forall e | e in recorded :: e in declared)
  {
    SplitJoin(recorded, ',');
    SplitJoin(declared, ',');
  }
}
