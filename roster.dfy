/**
 * The member roster: the member record, the search filter of the members
 * table, and the list edits behind add, delete, edit and CSV import.
 * The edits are stated here as functions of the old list; the app class
 * applies them to its `members` field.
 */
module Roster {
  import opened Lists
  import opened Text

  /** A member as the dashboard stores it; every field is free text. */
  datatype Member = Member(id: string, name: string, dept: string, status: string, joinDate: string, photo: string)

  function MemberId(m: Member): string {
    m.id
  }

  function MemberIds(ms: seq<Member>): seq<string> {
    Map(ms, MemberId)
  }

  predicate HasId(ms: seq<Member>, id: string) {
    id in MemberIds(ms)
  }

  ghost predicate UniqueIds(ms: seq<Member>) {
    Distinct(MemberIds(ms))
  }

  /** The roster shipped with the dashboard, used when nothing is stored yet. */
  const DefaultMembers: seq<Member> := [
    Member("1181/16", "Eyerusalem Alemayehu", "Information Systems", "Active", "2025-01-15", ""),
    Member("1550/16", "Heaven Abera", "Information Systems", "Active", "2025-01-20", ""),
    Member("1582/16", "Hikma Reshad", "Information Systems", "Inactive", "2025-01-25", ""),
    Member("2458/16", "Sifan Feyisa", "Information Systems", "Active", "2025-02-01", ""),
    Member("2562/16", "Tewodros Tesfaye", "Information Systems", "Active", "2025-02-05", ""),
    Member("2733/16", "Yohannes Dawit", "Information Systems", "Active", "2025-02-10", ""),
    Member("2735/16", "Yohannes Sleshi", "Information Systems", "Active", "2025-02-15", "")
  ]

  // ---------------------------------------------------------------------------
  // Search filter of the members table

  /** A member is shown when the lower-cased search text occurs in its lower-cased
      name or in its id, and the status filter is empty or equal to its status. */
  predicate MemberMatches(m: Member, search: string, status: string) {
    (Includes(ToLower(m.name), search) || Includes(m.id, search)) &&
    (status == "" || m.status == status)
  }

  function MemberFilter(search: string, status: string): Member -> bool {
    m => MemberMatches(m, search, status)
  }

  /** The members table's filter for the raw search-box text and status choice. */
  function FilteredMembers(data: seq<Member>, rawSearch: string, status: string): seq<Member> {
    Filter(data, MemberFilter(ToLower(rawSearch), status))
  }

  /** The filter keeps, in their original order, exactly the matching members,
      each as often as it occurs in the input. */
  lemma FilteredMembersSpec(data: seq<Member>, rawSearch: string, status: string)
    ensures IsSubsequence(FilteredMembers(data, rawSearch, status), data)
    ensures forall m :: m in FilteredMembers(data, rawSearch, status) <==>
      m in data && MemberMatches(m, ToLower(rawSearch), status)
    ensures forall m :: multiset(FilteredMembers(data, rawSearch, status))[m] ==
                        if MemberMatches(m, ToLower(rawSearch), status) then multiset(data)[m] else 0
  {
    var keep := MemberFilter(ToLower(rawSearch), status);
    FilterIsSubsequence(data, keep);
    forall m ensures multiset(Filter(data, keep))[m] ==
      if MemberMatches(m, ToLower(rawSearch), status) then multiset(data)[m] else 0
    {
      FilterCount(data, keep, m);
    }
    forall m ensures m in Filter(data, keep) <==> m in data && MemberMatches(m, ToLower(rawSearch), status) {
      FilterMembership(data, keep, m);
    }
  }

  /** An empty search box and an empty status filter show every member. */
  lemma UnfilteredMembers(data: seq<Member>)
    ensures FilteredMembers(data, "", "") == data
  {
    forall i | 0 <= i < |data| ensures MemberFilter("", "")(data[i]) {
      IncludesEmpty(ToLower(data[i].name));
    }
    FilterKeepsAll(data, MemberFilter("", ""));
  }

  // ---------------------------------------------------------------------------
  // Add

  /** Adding a member whose id is new keeps ids unique, and the new id then
      occurs exactly once. */
  lemma {:induction false} AddKeepsIdsUnique(ms: seq<Member>, m: Member)
    requires UniqueIds(ms) && !HasId(ms, m.id)
    ensures UniqueIds(ms + [m])
    ensures multiset(MemberIds(ms + [m]))[m.id] == 1
  {
    assert MemberIds(ms + [m]) == MemberIds(ms) + [m.id];
    assert multiset(MemberIds(ms))[m.id] == 0;
  }

  // ---------------------------------------------------------------------------
  // Delete

  function IdIsNot(id: string): Member -> bool {
    (m: Member) => m.id != id
  }

  /** `members.filter(m => m.id !== id)`. */
  function WithoutId(ms: seq<Member>, id: string): seq<Member> {
    Filter(ms, IdIsNot(id))
  }

  /** Delete removes every member with the id and keeps all the others in order. */
  lemma WithoutIdSpec(ms: seq<Member>, id: string)
    ensures !HasId(WithoutId(ms, id), id)
    ensures IsSubsequence(WithoutId(ms, id), ms)
    ensures forall m :: m in WithoutId(ms, id) <==> m in ms && m.id != id
    ensures forall m: Member :: m.id != id ==> multiset(WithoutId(ms, id))[m] == multiset(ms)[m]
  {
    FilterIsSubsequence(ms, IdIsNot(id));
    forall m ensures m in WithoutId(ms, id) <==> m in ms && m.id != id {
      FilterMembership(ms, IdIsNot(id), m);
    }
    forall m: Member | m.id != id ensures multiset(WithoutId(ms, id))[m] == multiset(ms)[m] {
      FilterCount(ms, IdIsNot(id), m);
    }
    var r := WithoutId(ms, id);
    assert forall i :: 0 <= i < |r| ==> IdIsNot(id)(r[i]);
  }

  /** Deleting the same id a second time changes nothing. */
  lemma DeleteTwice(ms: seq<Member>, id: string)
    ensures WithoutId(WithoutId(ms, id), id) == WithoutId(ms, id)
  {
    FilterIdempotent(ms, IdIsNot(id));
  }

  /** Delete keeps ids unique. */
  lemma {:induction false} DeleteKeepsIdsUnique(ms: seq<Member>, id: string)
    requires UniqueIds(ms)
    ensures UniqueIds(WithoutId(ms, id))
  {
    if ms != [] {
      assert UniqueIds(ms[1..]) by {
        assert MemberIds(ms[1..]) == MemberIds(ms)[1..];
      }
      DeleteKeepsIdsUnique(ms[1..], id);
      if ms[0].id != id {
        var rest := WithoutId(ms[1..], id);
        assert WithoutId(ms, id) == [ms[0]] + rest;
        forall m | m in rest ensures m.id != ms[0].id {
          FilterMembership(ms[1..], IdIsNot(id), m);
          var k :| 0 <= k < |ms[1..]| && ms[1..][k] == m;
          assert MemberIds(ms)[k + 1] == m.id;
        }
        var ids := MemberIds([ms[0]] + rest);
        forall i, j | 0 <= i < j < |ids| ensures ids[i] != ids[j] {
          if i == 0 {
            assert rest[j - 1] in rest;
          } else {
            assert MemberIds(rest)[i - 1] != MemberIds(rest)[j - 1];
          }
        }
      }
    }
  }

  // ---------------------------------------------------------------------------
  // Edit

  /** `updateMember`: the first member with the id gets the new name, department,
      status and join date; without such a member nothing changes. */
  function UpdatedMembers(ms: seq<Member>, id: string, name: string, dept: string, status: string, joinDate: string): seq<Member> {
    match IndexOf(MemberIds(ms), id)
    case None => ms
    case Some(i) => ms[i := ms[i].(name := name, dept := dept, status := status, joinDate := joinDate)]
  }

  lemma UpdatedMembersSpec(ms: seq<Member>, id: string, name: string, dept: string, status: string, joinDate: string)
    ensures var r := UpdatedMembers(ms, id, name, dept, status, joinDate);
      && |r| == |ms|
      && MemberIds(r) == MemberIds(ms)
      && (!HasId(ms, id) ==> r == ms)
      && (HasId(ms, id) ==>
            exists i :: (0 <= i < |ms| && ms[i].id == id
                         && (forall j :: 0 <= j < i ==> ms[j].id != id)
                         && r[i] == Member(id, name, dept, status, joinDate, ms[i].photo)
                         && (forall j :: 0 <= j < |ms| && j != i ==> r[j] == ms[j])))
  {
    var r := UpdatedMembers(ms, id, name, dept, status, joinDate);
    match IndexOf(MemberIds(ms), id)
    case None =>
    case Some(i) =>
      forall j | 0 <= j < i ensures ms[j].id != id {
        assert MemberIds(ms)[..i][j] == ms[j].id;
      }
  }

  /** Editing never changes the ids, so it keeps them unique. */
  lemma UpdateKeepsIdsUnique(ms: seq<Member>, id: string, name: string, dept: string, status: string, joinDate: string)
    requires UniqueIds(ms)
    ensures UniqueIds(UpdatedMembers(ms, id, name, dept, status, joinDate))
  {
    UpdatedMembersSpec(ms, id, name, dept, status, joinDate);
  }

  /** A new member added, set to Inactive, then deleted: it is listed by the
      Inactive filter after the edit, it is gone after the delete, and a second
      delete changes nothing. */
  lemma MemberLifecycle(ms: seq<Member>, m: Member)
    requires !HasId(ms, m.id)
    ensures var added := ms + [m];
            var edited := UpdatedMembers(added, m.id, m.name, m.dept, "Inactive", m.joinDate);
            var deleted := WithoutId(edited, m.id);
            && m.(status := "Inactive") in FilteredMembers(edited, "", "Inactive")
            && !HasId(deleted, m.id)
            && WithoutId(deleted, m.id) == deleted
  {
    var added := ms + [m];
    var edited := UpdatedMembers(added, m.id, m.name, m.dept, "Inactive", m.joinDate);
    var deleted := WithoutId(edited, m.id);
    assert m.(status := "Inactive") in FilteredMembers(edited, "", "Inactive") by {
      assert MemberIds(added) == MemberIds(ms) + [m.id];
      assert IndexOf(MemberIds(added), m.id) == Some(|ms|);
      assert edited[|ms|] == m.(status := "Inactive");
      IncludesEmpty(ToLower(m.name));
      FilteredMembersSpec(edited, "", "Inactive");
    }
    assert !HasId(deleted, m.id) by {
      WithoutIdSpec(edited, m.id);
    }
    DeleteTwice(edited, m.id);
  }

  // ---------------------------------------------------------------------------
  // CSV import

  /** The five columns `[id, name, dept, status, joinDate]` of a row as JavaScript
      destructuring leaves them: column `k` is the `k`-th comma-separated piece when
      the row has at least `k` commas, and undefined otherwise. */
  function CsvRowAsWritten(line: string): (cols: seq<Option<string>>)
    ensures |cols| == 5
    ensures forall k :: 0 <= k < 5 ==> (cols[k].Some? <==> k <= multiset(line)[','])
    ensures forall k :: 0 <= k < 5 && k < |Split(line, ',')| ==> cols[k] == Some(Split(line, ',')[k])
  {
    SplitPieces(line, ',');
    var parts := Split(line, ',');
    seq(5, k requires 0 <= k < 5 => if k < |parts| then Some(parts[k]) else None)
  }

  /** A row with an id but no comma passes the import's `if (id)` test while its
      name is undefined, so the imported member has no name. */
  lemma ShortRowImportedWithoutName(line: string)
    requires line != "" && ',' !in line
    ensures CsvRowAsWritten(line)[0] == Some(line) && CsvRowAsWritten(line)[0].value != ""
    ensures CsvRowAsWritten(line)[1] == None
  {
    SplitWithoutSeparator(line, ',');
  }

  /** Column `k` of a split row, or the empty string when the row is shorter. */
  function Column(parts: seq<string>, k: nat): string {
    if k < |parts| then parts[k] else ""
  }

  /** The five text columns of a member, in CSV order. */
  function Fields(m: Member): seq<string> {
    [m.id, m.name, m.dept, m.status, m.joinDate]
  }

  /** One CSV row as a member: nothing when the id column is empty; missing
      columns are read as empty strings and columns after the fifth are ignored. */
  function ParseCsvRow(line: string): (r: Option<Member>)
    ensures r.Some? ==> r.value.id != "" && r.value.photo == ""
  {
    var parts := Split(line, ',');
    if parts[0] == "" then None
    else Some(Member(parts[0], Column(parts, 1), Column(parts, 2), Column(parts, 3), Column(parts, 4), ""))
  }

  /** The corrected reading agrees with destructuring wherever destructuring
      defines a column: a row is read exactly when its id column is non-empty, every
      defined column is taken as it is, and every undefined one becomes "". */
  lemma ParseCsvRowColumns(line: string)
    ensures ParseCsvRow(line).Some? <==> CsvRowAsWritten(line)[0].value != ""
    ensures ParseCsvRow(line).Some? ==> forall k :: 0 <= k < 5 ==>
              var field := Fields(ParseCsvRow(line).value)[k];
              && ',' !in field
              && field == (if CsvRowAsWritten(line)[k].Some? then CsvRowAsWritten(line)[k].value else "")
  {
  }

  /** A row is skipped exactly when its id column is empty. */
  lemma ParseCsvRowSkips(line: string)
    ensures ParseCsvRow(line).None? <==> line == "" || line[0] == ','
  {
    SplitFirstEmpty(line, ',');
  }

  /** A row holding only an id is read as a member with that id and every other
      column empty. */
  lemma ShortRowPadded(line: string)
    requires line != "" && ',' !in line
    ensures ParseCsvRow(line) == Some(Member(line, "", "", "", "", ""))
  {
    SplitWithoutSeparator(line, ',');
  }

  /** The row a member is written as in a CSV file. */
  function CsvLine(m: Member): string {
    Join(Fields(m), ',')
  }

  /** A member that fits in a comma-separated row: a non-empty id, no photo, and
      no comma in any column. */
  ghost predicate CsvSafe(m: Member) {
    m.id != "" && m.photo == "" &&
    ',' !in m.id && ',' !in m.name && ',' !in m.dept && ',' !in m.status && ',' !in m.joinDate
  }

  /** No column of the member holds a line break, so its row is one line of a file. */
  ghost predicate OneLine(m: Member) {
    '\n' !in m.id && '\n' !in m.name && '\n' !in m.dept && '\n' !in m.status && '\n' !in m.joinDate
  }

  /** Every member that fits in a comma-separated row reads back unchanged. */
  lemma CsvRowRoundTrip(m: Member)
    requires CsvSafe(m)
    ensures ParseCsvRow(CsvLine(m)) == Some(m)
  {
    SplitJoin(Fields(m), ',');
  }

  /** Columns after the fifth are ignored: a member's row followed by more columns
      still reads back as that member. */
  lemma ExtraColumnsIgnored(m: Member, extra: string)
    requires CsvSafe(m)
    ensures ParseCsvRow(CsvLine(m) + "," + extra) == Some(m)
  {
    SplitJoinThen(Fields(m), extra, ',');
  }

  /** The member one row contributes: none when it is skipped. */
  function RowMembers(line: string): (r: seq<Member>)
    ensures |r| <= 1
    ensures r != [] ==> r[0].id != ""
  {
    match ParseCsvRow(line)
    case None => []
    case Some(m) => [m]
  }

  /** The members the import appends for the given data rows, in row order: the
      member of every row that is not skipped, and nothing else. */
  function ImportedMembers(rows: seq<string>): (r: seq<Member>)
    ensures |r| <= |rows|
    ensures forall j :: 0 <= j < |rows| && ParseCsvRow(rows[j]).Some? ==> ParseCsvRow(rows[j]).value in r
    ensures forall m :: m in r ==> exists j :: 0 <= j < |rows| && ParseCsvRow(rows[j]) == Some(m)
  {
    if rows == [] then []
    else
      var init := rows[..|rows| - 1];
      assert forall j :: 0 <= j < |init| ==> init[j] == rows[j];
      ImportedMembers(init) + RowMembers(rows[|rows| - 1])
  }

  /** Importing two batches of rows in turn is importing them together. */
  lemma {:induction false} ImportedMembersAppend(a: seq<string>, b: seq<string>)
    ensures ImportedMembers(a + b) == ImportedMembers(a) + ImportedMembers(b)
    decreases |b|
  {
    if b == [] {
      assert a + b == a;
    } else {
      var init := b[..|b| - 1];
      assert (a + b)[..|a + b| - 1] == a + init;
      ImportedMembersAppend(a, init);
      AppendAssociative(ImportedMembers(a), ImportedMembers(init), RowMembers(b[|b| - 1]));
    }
  }

  /** The import loop's step: one more row adds that row's member, if any. */
  lemma ImportedMembersStep(rows: seq<string>, i: nat)
    requires i < |rows|
    ensures ImportedMembers(rows[..i + 1]) == ImportedMembers(rows[..i]) + RowMembers(rows[i])
  {
    assert rows[..i + 1][..i] == rows[..i];
  }

  /** The data rows of a CSV text: every line after the header line. */
  function CsvDataRows(text: string): seq<string> {
    Split(text, '\n')[1..]
  }

  /** There is one data row per line break, none holds a line break, and the text
      is its header line, then the data rows joined by line breaks. */
  lemma CsvDataRowsSpec(text: string)
    ensures |CsvDataRows(text)| == multiset(text)['\n']
    ensures forall k :: 0 <= k < |CsvDataRows(text)| ==> '\n' !in CsvDataRows(text)[k]
    ensures '\n' !in Split(text, '\n')[0]
    ensures CsvDataRows(text) == [] ==> text == Split(text, '\n')[0]
    ensures CsvDataRows(text) != [] ==> text == Split(text, '\n')[0] + "\n" + Join(CsvDataRows(text), '\n')
  {
    SplitPieces(text, '\n');
    JoinSplit(text, '\n');
  }

  /** The import does not look for ids already present: a file whose one data line
      is a member already on the roster adds that member again, and the roster
      then holds its id twice. */
  lemma ImportIgnoresDuplicates(ms: seq<Member>, m: Member, header: string)
    requires CsvSafe(m) && OneLine(m) && HasId(ms, m.id) && '\n' !in header
    ensures ImportedMembers(CsvDataRows(header + "\n" + CsvLine(m))) == [m]
    ensures !UniqueIds(ms + ImportedMembers(CsvDataRows(header + "\n" + CsvLine(m))))
  {
    var line := CsvLine(m);
    assert ImportedMembers(CsvDataRows(header + "\n" + line)) == [m] by {
      JoinAvoids(Fields(m), ',', '\n');
      SplitAtSeparator(header, line, '\n');
      SplitWithoutSeparator(line, '\n');
      assert CsvDataRows(header + "\n" + line) == [line];
      CsvRowRoundTrip(m);
      assert [line][..0] == [];
    }
    DuplicateBreaksUniqueness(ms, m);
  }

  /** Appending a member whose id is taken leaves two members with that id. */
  lemma DuplicateBreaksUniqueness(ms: seq<Member>, m: Member)
    requires HasId(ms, m.id)
    ensures !UniqueIds(ms + [m])
  {
    var all := ms + [m];
    var i :| 0 <= i < |ms| && MemberIds(ms)[i] == m.id;
    assert all[i] == ms[i] && all[|ms|] == m;
    assert MemberIds(all)[i] == MemberIds(all)[|ms|];
  }
}
