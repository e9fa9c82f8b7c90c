/** The administrator allowlist: `ADMIN_CLERK_IDS` is a comma-separated list
    of user ids, and only a signed-in user whose id is on it is an admin. */
module Auth {
  import opened Wrappers
  import opened Js

  /** `(process.env.ADMIN_CLERK_IDS || '')`: an unset variable reads as the
      empty string. */
  function EnvText(env: Option<string>): (s: string)
    ensures env.None? ==> s == ""
    ensures env.Some? ==> s == env.value
  {
    if env.Some? then env.value else ""
  }

  /** `.map((s) => s.trim()).filter(Boolean)`. */
  function TrimmedNonEmpty(pieces: seq<string>): (ids: seq<string>)
    ensures |ids| <= |pieces|
  {
    if pieces == [] then []
    else
      var rest := TrimmedNonEmpty(pieces[1..]);
      var t := Trim(pieces[0]);
      if t == "" then rest else [t] + rest
  }

  /** Some piece trims to `id`. */
  predicate SomeTrimsTo(pieces: seq<string>, id: string) {
    exists k :: 0 <= k < |pieces| && Trim(pieces[k]) == id
  }

  lemma SomeTrimsToCons(pieces: seq<string>, id: string)
    requires pieces != []
    ensures SomeTrimsTo(pieces, id) <==> Trim(pieces[0]) == id || SomeTrimsTo(pieces[1..], id)
  {
    if SomeTrimsTo(pieces, id) && Trim(pieces[0]) != id {
      var k :| 0 <= k < |pieces| && Trim(pieces[k]) == id;
      assert pieces[1..][k - 1] == pieces[k];
    }
    if SomeTrimsTo(pieces[1..], id) {
      var k :| 0 <= k < |pieces[1..]| && Trim(pieces[1..][k]) == id;
      assert pieces[k + 1] == pieces[1..][k];
    }
  }

  /** The kept ids are exactly the non-empty trimmed pieces. */
  lemma {:induction false} TrimmedNonEmptyMembers(pieces: seq<string>)
    ensures forall id :: id in TrimmedNonEmpty(pieces) <==> id != "" && SomeTrimsTo(pieces, id)
  {
    if pieces != [] {
      TrimmedNonEmptyMembers(pieces[1..]);
      forall id ensures id in TrimmedNonEmpty(pieces) <==> id != "" && SomeTrimsTo(pieces, id) {
        SomeTrimsToCons(pieces, id);
      }
    }
  }

  /** The entries of the variable: its text split on `,`. */
  function Entries(env: Option<string>): seq<string> {
    Split(EnvText(env), ',')
  }

  /** The admin ids: the entries, each trimmed, empty ones dropped. An id
      is listed exactly when it is non-empty and some entry trims to it. */
  function AdminIds(env: Option<string>): (ids: seq<string>)
    ensures forall id :: id in ids <==> id != "" && SomeTrimsTo(Entries(env), id)
  {
    TrimmedNonEmptyMembers(Entries(env));
    TrimmedNonEmpty(Entries(env))
  }

  /** `isAdmin(userId)`: a present, non-empty id found in the list, that is,
      an id some entry of the variable trims to. */
  predicate IsAdmin(env: Option<string>, userId: Option<string>): (b: bool)
    ensures b <==> userId.Some? && userId.value != "" && SomeTrimsTo(Entries(env), userId.value)
  {
    userId.Some? && userId.value != "" && userId.value in AdminIds(env)
  }

  /** What `assertAdmin` yields: the user id, or the error it throws. */
  datatype Outcome = Authorized(userId: string) | Denied(message: string, status: int)

  /** `assertAdmin()` for the user id the session reports. */
  function AssertAdmin(env: Option<string>, userId: Option<string>): (o: Outcome)
    ensures o.Authorized? <==> IsAdmin(env, userId)
    ensures o.Authorized? ==> userId == Some(o.userId)
    ensures o.Denied? ==> o == Denied("Unauthorized", 401)
  {
    if userId.None? || userId.value == "" || userId.value !in AdminIds(env) then Denied("Unauthorized", 401)
    else Authorized(userId.value)
  }

  // ---------------------------------------------------------------------
  // Properties

  /** With the variable unset or empty, nobody is an admin. */
  lemma NobodyWhenUnset(env: Option<string>, userId: Option<string>)
    requires env.None? || env == Some("")
    ensures !IsAdmin(env, userId)
    ensures AssertAdmin(env, userId) == Denied("Unauthorized", 401)
  {
    assert Split("", ',') == [""];
    TrimAllSpace("");
  }

  /** No listed id starts or ends with white space. */
  lemma AdminIdsTrimmed(env: Option<string>)
    ensures forall id :: id in AdminIds(env) ==> id != "" && !IsSpace(id[0]) && !IsSpace(id[|id| - 1])
  {
    var entries := Entries(env);
    forall id | id in AdminIds(env) ensures id != "" && !IsSpace(id[0]) && !IsSpace(id[|id| - 1]) {
      var k :| 0 <= k < |entries| && Trim(entries[k]) == id;
    }
  }

  /** The user id itself is not trimmed: an id with white space at either
      end is never an admin, whatever the list holds. */
  lemma PaddedUserIdNotAdmin(env: Option<string>, u: string)
    requires u != "" && (IsSpace(u[0]) || IsSpace(u[|u| - 1]))
    ensures !IsAdmin(env, Some(u))
  {
    AdminIdsTrimmed(env);
  }

  /** White space around an entry is ignored: a list holding one entry with
      spaces around an id admits exactly that id. */
  lemma SpacesAroundEntryIgnored(u: string, x: string)
    requires u != "" && ',' !in u && !IsSpace(u[0]) && !IsSpace(u[|u| - 1])
    ensures IsAdmin(Some(" " + u + " "), Some(x)) <==> x == u
  {
    var e := " " + u + " ";
    assert ',' !in e by {
      forall i | 0 <= i < |e| ensures e[i] != ',' {
        if 0 < i < |e| - 1 { assert e[i] == u[i - 1]; }
      }
    }
    assert Split(e, ',') == [e];
    TrimSpaced(u);
  }

  /** Trimming one space from each side of a string without surrounding
      white space gives the string back. */
  lemma TrimSpaced(u: string)
    requires u != "" && !IsSpace(u[0]) && !IsSpace(u[|u| - 1])
    ensures Trim(" " + u + " ") == u
  {
    var e := " " + u + " ";
    assert e[1..] == u + " ";
    assert TrimStart(e) == TrimStart(u + " ");
    assert TrimStart(u + " ") == u + " ";
    assert (u + " ")[..|u|] == u;
    assert TrimEnd(u + " ") == TrimEnd(u);
  }
}
