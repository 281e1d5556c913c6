/**
 * The dashboard's state and the handlers that change it. Each collection the
 * browser keeps in local storage is a field here: a save is the assignment to
 * the field. Form inputs, dialog answers, clock readings and the ids drawn from
 * the clock are parameters of the handlers.
 */
module App {
  import opened Lists
  import opened Text
  import opened Roster
  import opened Activities
  import opened Paging
  import opened Audit
  import opened Feed
  import opened Session

  /** What local storage held for each key at start-up; `None` when the key was
      missing or held `null`. */
  datatype Stored = Stored(
    members: Option<seq<Member>>,
    events: Option<seq<Event>>,
    elections: Option<seq<Election>>,
    audit: Option<seq<AuditEntry>>,
    user: Option<User>,
    notifications: Option<seq<Notification>>)

  /** `loadData(key) || fallback`. */
  function OrElse<T>(o: Option<T>, fallback: T): T {
    match o
    case Some(v) => v
    case None => fallback
  }

  lemma DefaultMembersUnique()
    ensures UniqueIds(DefaultMembers)
  {
  }

  class StudentUnionApp {
    var members: seq<Member>
    var events: seq<Event>
    var elections: seq<Election>
    var auditLog: seq<AuditEntry>
    var user: User
    var membersPage: nat
    var notifications: seq<Notification>
    var notifCount: nat

    /** Page numbers start at 1 and never drop below it. */
    ghost predicate Valid()
      reads this
    {
      membersPage >= 1
    }

    /** Each collection is what was stored, or the built-in default. The badge
        count starts at zero whatever the stored notifications are. */
    constructor(stored: Stored)
      ensures Valid()
      ensures members == OrElse(stored.members, DefaultMembers)
      ensures events == OrElse(stored.events, DefaultEvents)
      ensures elections == OrElse(stored.elections, DefaultElections)
      ensures auditLog == OrElse(stored.audit, [])
      ensures user == OrElse(stored.user, DefaultUser)
      ensures notifications == OrElse(stored.notifications, [])
      ensures membersPage == 1 && notifCount == 0
      ensures stored.members.None? ==> UniqueIds(members)
      ensures stored.events.None? ==> NumberedOneToN(EventIds(events))
      ensures stored.elections.None? ==> NumberedOneToN(ElectionIds(elections))
    {
      members := OrElse(stored.members, DefaultMembers);
      events := OrElse(stored.events, DefaultEvents);
      elections := OrElse(stored.elections, DefaultElections);
      auditLog := OrElse(stored.audit, []);
      user := OrElse(stored.user, DefaultUser);
      notifications := OrElse(stored.notifications, []);
      membersPage := 1;
      notifCount := 0;
      DefaultMembersUnique();
      DefaultsNumbered();
    }

    // -------------------------------------------------------------------------
    // Audit log

    /** `logAudit`: record the action under the current user's name. */
    method LogAudit(action: string, details: string, now: string)
      modifies this`auditLog
      ensures auditLog == Recorded(old(auditLog), AuditEntry(action, user.name, now, details))
      ensures |auditLog| <= AuditCap
    {
      auditLog := [AuditEntry(action, user.name, now, details)] + auditLog;
      if |auditLog| > AuditCap {
        auditLog := auditLog[..AuditCap];
      }
    }

    // -------------------------------------------------------------------------
    // Login

    /** The login form: on the accepted credentials the user is renamed and the
        login is logged; the role is left as it was. */
    method Login(username: string, password: string, now: string) returns (ok: bool)
      modifies this`user, this`auditLog
      ensures ok <==> CredentialsAccepted(username, password)
      ensures user == if ok then old(user).(name := username) else old(user)
      ensures IsAdmin(user) == old(IsAdmin(user))
      ensures auditLog == if ok then Recorded(old(auditLog), AuditEntry("login", username, now, username))
                          else old(auditLog)
    {
      ok := CredentialsAccepted(username, password);
      if ok {
        user := user.(name := username);
        LogAudit("login", username, now);
      }
    }

    // -------------------------------------------------------------------------
    // Notifications

    /** `addNotification`: post an unread notice and refresh the badge count. */
    method AddNotification(id: int, message: string, now: string)
      modifies this`notifications, this`notifCount
      ensures notifications == Posted(old(notifications), id, message, now)
      ensures notifCount == UnreadCount(notifications) == UnreadCount(old(notifications)) + 1
    {
      notifications := [Notification(id, message, now, false)] + notifications;
      notifCount := UnreadCount(notifications);
      PostedSpec(old(notifications), id, message, now);
    }

    /** `markNotifRead`: flag the first notice with the id and refresh the badge
        count, which never goes up. */
    method MarkNotifRead(id: int)
      modifies this`notifications, this`notifCount
      ensures notifications == MarkedRead(old(notifications), id)
      ensures notifCount == UnreadCount(notifications) <= UnreadCount(old(notifications))
    {
      var k := IndexOf(NotificationIds(notifications), id);
      if k.Some? {
        notifications := notifications[k.value := notifications[k.value].(read := true)];
      }
      notifCount := UnreadCount(notifications);
      MarkedReadSpec(old(notifications), id);
    }

    // -------------------------------------------------------------------------
    // Members table and its pagination

    /** The rows of the members table for the current search text, status filter
        and page: five filtered members from position `(page - 1) * 5`, or the rest
        of them on the last page. */
    function ShownMembers(rawSearch: string, status: string): (r: seq<Member>)
      reads this
      requires Valid()
      ensures |r| <= MembersPerPage
      ensures r != [] <==> membersPage <= TotalPages(|FilteredMembers(members, rawSearch, status)|)
      ensures r != [] ==> (membersPage - 1) * MembersPerPage + |r| <= |FilteredMembers(members, rawSearch, status)|
      ensures r != [] ==> |r| == if membersPage * MembersPerPage <= |FilteredMembers(members, rawSearch, status)|
                                 then MembersPerPage
                                 else |FilteredMembers(members, rawSearch, status)| - (membersPage - 1) * MembersPerPage
      ensures forall k :: 0 <= k < |r| ==>
                r[k] == FilteredMembers(members, rawSearch, status)[(membersPage - 1) * MembersPerPage + k]
    {
      PageNonEmptyIff(FilteredMembers(members, rawSearch, status), membersPage);
      PageOf(FilteredMembers(members, rawSearch, status), membersPage)
    }

    /** The previous-page button: back one page unless on page 1. */
    method PrevPage()
      requires Valid()
      modifies this`membersPage
      ensures Valid()
      ensures membersPage == if old(membersPage) > 1 then old(membersPage) - 1 else old(membersPage)
    {
      if membersPage > 1 {
        membersPage := membersPage - 1;
      }
    }

    /** The next-page button: forward one page while a later page of the filtered
        members exists; a page that was in range stays in range. */
    method NextPage(rawSearch: string, status: string)
      requires Valid()
      modifies this`membersPage
      ensures Valid()
      ensures var pages := TotalPages(|FilteredMembers(members, rawSearch, status)|);
              && membersPage == (if old(membersPage) < pages then old(membersPage) + 1 else old(membersPage))
              && (old(membersPage) <= pages ==> membersPage <= pages)
    {
      var filtered := FilteredMembers(members, rawSearch, status);
      if membersPage < TotalPages(|filtered|) {
        membersPage := membersPage + 1;
      }
    }

    /** A change of search text or status filter goes back to page 1. */
    method ResetMembersPage()
      modifies this`membersPage
      ensures Valid() && membersPage == 1
    {
      membersPage := 1;
    }

    // -------------------------------------------------------------------------
    // Member edits

    /** The delete button: only a confirmed click by an admin removes the members
        with the id and logs it. */
    method DeleteMemberClicked(id: string, confirmed: bool, now: string)
      modifies this`members, this`auditLog
      ensures var allowed := confirmed && IsAdmin(user);
              && members == (if allowed then WithoutId(old(members), id) else old(members))
              && auditLog == (if allowed then Recorded(old(auditLog), AuditEntry("delete_member", user.name, now, id))
                              else old(auditLog))
      ensures !HasId(members, id) || !(confirmed && IsAdmin(user))
      ensures old(UniqueIds(members)) ==> UniqueIds(members)
    {
      if confirmed && IsAdmin(user) {
        if UniqueIds(members) {
          DeleteKeepsIdsUnique(members, id);
        }
        WithoutIdSpec(members, id);
        members := WithoutId(members, id);
        LogAudit("delete_member", id, now);
      }
    }

    /** `updateMember`: give the first member with the id the new name, department,
        status and join date, and log it; nothing happens for an unknown id. There
        is no role check here. */
    method UpdateMember(id: string, name: string, dept: string, status: string, joinDate: string, now: string)
      modifies this`members, this`auditLog
      ensures members == UpdatedMembers(old(members), id, name, dept, status, joinDate)
      ensures MemberIds(members) == MemberIds(old(members))
      ensures auditLog == if HasId(old(members), id)
                          then Recorded(old(auditLog), AuditEntry("update_member", user.name, now, id))
                          else old(auditLog)
    {
      UpdatedMembersSpec(members, id, name, dept, status, joinDate);
      var k := IndexOf(MemberIds(members), id);
      if k.None? {
        return;
      }
      var i := k.value;
      members := members[i := members[i].(name := name, dept := dept, status := status, joinDate := joinDate)];
      LogAudit("update_member", id, now);
    }

    /** `addNewMember`: refuse an id that is already taken; otherwise append the
        member with no photo and log it. There is no role check here. */
    method AddNewMember(id: string, name: string, dept: string, status: string, joinDate: string, now: string)
      returns (added: bool)
      modifies this`members, this`auditLog
      ensures added <==> !HasId(old(members), id)
      ensures members == if added then old(members) + [Member(id, name, dept, status, joinDate, "")]
                         else old(members)
      ensures auditLog == if added then Recorded(old(auditLog), AuditEntry("add_member", user.name, now, id))
                          else old(auditLog)
      ensures old(UniqueIds(members)) ==> UniqueIds(members)
      ensures old(UniqueIds(members)) && added ==> multiset(MemberIds(members))[id] == 1
    {
      var newMember := Member(id, name, dept, status, joinDate, "");
      if IndexOf(MemberIds(members), id).Some? {
        added := false;
        return;
      }
      if UniqueIds(members) {
        AddKeepsIdsUnique(members, newMember);
      }
      members := members + [newMember];
      added := true;
      LogAudit("add_member", id, now);
    }

    /** The CSV upload: every line after the header whose first column is not
        empty is appended as a member, without looking for ids already present;
        then the upload is logged under the file name. */
    method ImportCsv(text: string, fileName: string, now: string)
      modifies this`members, this`auditLog
      ensures members == old(members) + ImportedMembers(CsvDataRows(text))
      ensures auditLog == Recorded(old(auditLog), AuditEntry("upload_csv", user.name, now, fileName))
    {
      var rows := CsvDataRows(text);
      var i := 0;
      while i < |rows|
        invariant 0 <= i <= |rows|
        invariant members == old(members) + ImportedMembers(rows[..i])
        invariant auditLog == old(auditLog)
      {
        var parts := Split(rows[i], ',');
        ImportedMembersStep(rows, i);
        AppendAssociative(old(members), ImportedMembers(rows[..i]), RowMembers(rows[i]));
        if parts[0] != "" {
          members := members + [Member(parts[0], Column(parts, 1), Column(parts, 2), Column(parts, 3), Column(parts, 4), "")];
        }
        i := i + 1;
      }
      assert rows[..i] == rows;
      LogAudit("upload_csv", fileName, now);
    }

    // -------------------------------------------------------------------------
    // Events and elections

    /** `addNewEvent`: append an event numbered `length + 1` with no attendees and
        log it. There is no role check here. */
    method AddNewEvent(title: string, date: string, kind: string, description: string, status: string, now: string)
      modifies this`events, this`auditLog
      ensures events == old(events) + [Event(|old(events)| + 1, title, date, kind, description, status, 0)]
      ensures NumberedOneToN(EventIds(old(events))) ==> NumberedOneToN(EventIds(events))
      ensures auditLog == Recorded(old(auditLog), AuditEntry("add_event", user.name, now, title))
    {
      var newEvent := Event(|events| + 1, title, date, kind, description, status, 0);
      assert EventIds(events + [newEvent]) == EventIds(events) + [newEvent.id];
      if NumberedOneToN(EventIds(events)) {
        NumberingExtends(EventIds(events), newEvent.id);
      }
      events := events + [newEvent];
      LogAudit("add_event", title, now);
    }

    /** The start-election button: with a title and a candidate list, append a
        pending election numbered `length + 1` with no voters and log it. */
    method CreateElection(title: string, candidatesText: string, now: string) returns (created: bool)
      modifies this`elections, this`auditLog
      ensures created <==> title != "" && candidatesText != ""
      ensures elections == if created
                           then old(elections) + [Election(|old(elections)| + 1, title, "Pending", 0, CandidateList(candidatesText))]
                           else old(elections)
      ensures NumberedOneToN(ElectionIds(old(elections))) ==> NumberedOneToN(ElectionIds(elections))
      ensures auditLog == if created then Recorded(old(auditLog), AuditEntry("create_election", user.name, now, title))
                          else old(auditLog)
    {
      created := title != "" && candidatesText != "";
      if !created {
        return;
      }
      var newElection := Election(|elections| + 1, title, "Pending", 0, CandidateList(candidatesText));
      assert ElectionIds(elections + [newElection]) == ElectionIds(elections) + [newElection.id];
      if NumberedOneToN(ElectionIds(elections)) {
        NumberingExtends(ElectionIds(elections), newElection.id);
      }
      elections := elections + [newElection];
      LogAudit("create_election", title, now);
    }

    /** The RSVP button: one more attendee on the first event with the id, logged
        with its title. An unknown id changes nothing. There is no role check. */
    method Rsvp(id: int, now: string) returns (ok: bool)
      modifies this`events, this`auditLog
      ensures ok <==> id in EventIds(old(events))
      ensures events == if ok then Rsvped(old(events), id).value else old(events)
      ensures ok ==> Total(Attendees(events)) == Total(Attendees(old(events))) + 1
      ensures auditLog == if ok then Recorded(old(auditLog), AuditEntry("rsvp_event", user.name, now,
                                       old(events)[IndexOf(EventIds(old(events)), id).value].title))
                          else old(auditLog)
    {
      var k := IndexOf(EventIds(events), id);
      ok := k.Some?;
      if !ok {
        return;
      }
      var i := k.value;
      var title := events[i].title;
      var updated := events[i := events[i].(attendees := events[i].attendees + 1)];
      assert Rsvped(events, id) == Some(updated);
      assert Attendees(updated) == Attendees(events)[i := events[i].attendees + 1];
      TotalAfterIncrement(Attendees(events), i);
      events := updated;
      LogAudit("rsvp_event", title, now);
    }

    /** `voteElection`: one more voter on the first election with the id, whatever
        its status, logged with its title. An unknown id changes nothing. */
    method VoteElection(id: int, now: string) returns (ok: bool)
      modifies this`elections, this`auditLog
      ensures ok <==> id in ElectionIds(old(elections))
      ensures elections == if ok then Voted(old(elections), id).value else old(elections)
      ensures ok ==> Total(Voters(elections)) == Total(Voters(old(elections))) + 1
      ensures auditLog == if ok then Recorded(old(auditLog), AuditEntry("vote_election", user.name, now,
                                       old(elections)[IndexOf(ElectionIds(old(elections)), id).value].title))
                          else old(auditLog)
    {
      var k := IndexOf(ElectionIds(elections), id);
      ok := k.Some?;
      if !ok {
        return;
      }
      var i := k.value;
      var title := elections[i].title;
      var updated := elections[i := elections[i].(voters := elections[i].voters + 1)];
      assert Voted(elections, id) == Some(updated);
      assert Voters(updated) == Voters(elections)[i := elections[i].voters + 1];
      TotalAfterIncrement(Voters(elections), i);
      elections := updated;
      LogAudit("vote_election", title, now);
    }
  }
}
