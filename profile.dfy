/** The Profile page: the form filled from the signed-in user's record and
    the editing of its allergy list. */
module Profile {
  import opened Common
  import JsString

  /** The form's state, `formData`. */
  datatype FormData = FormData(
    fullName: string,
    phoneNumber: string,
    allergies: seq<string>,
    notes: string,
    avatarUrl: string)

  /** The form before any user is loaded. */
  const EmptyForm: FormData := FormData("", "", [], "", "")

  /** The user record as the identity provider returns it; a field may be
      absent (undefined or null). */
  datatype UserRecord = UserRecord(
    fullName: Option<string>,
    phoneNumber: Option<string>,
    allergies: Option<seq<string>>,
    notes: Option<string>,
    avatarUrl: Option<string>)

  /** `userData.x || ''`. */
  function OrEmpty(s: Option<string>): (r: string)
    ensures r == [] <==> s == None || s == Some([])
    ensures s.Some? ==> r == s.value
  {
    s.GetOr([])
  }

  /** The form filled from a user record: each present field is copied, an
      absent string field reads as '' and absent allergies as []. */
  function FormFromUser(u: UserRecord): (f: FormData)
    ensures f.allergies == [] <==> u.allergies == None || u.allergies == Some([])
    ensures u.allergies.Some? ==> f.allergies == u.allergies.value
    ensures f.fullName == OrEmpty(u.fullName) && f.phoneNumber == OrEmpty(u.phoneNumber)
    ensures f.notes == OrEmpty(u.notes) && f.avatarUrl == OrEmpty(u.avatarUrl)
  {
    FormData(
      OrEmpty(u.fullName),
      OrEmpty(u.phoneNumber),
      u.allergies.GetOr([]),
      OrEmpty(u.notes),
      OrEmpty(u.avatarUrl))
  }

  /** A user record holding exactly the fields of a form. */
  function UserOfForm(f: FormData): UserRecord {
    UserRecord(Some(f.fullName), Some(f.phoneNumber), Some(f.allergies), Some(f.notes), Some(f.avatarUrl))
  }

  /** Loading a record with no fields gives the initial form. */
  lemma FormFromEmptyUser()
    ensures FormFromUser(UserRecord(None, None, None, None, None)) == EmptyForm
  {
  }

  /** Loading a record that holds every field gives back those fields. */
  lemma FormFromUserRoundTrip(f: FormData)
    ensures FormFromUser(UserOfForm(f)) == f
  {
  }

  // ---------------------------------------------------------------------
  // The allergy list

  /** The list after `addAllergy` with input `raw`: the trimmed input is
      appended when it is not blank and not yet listed. */
  function WithAllergy(list: seq<string>, raw: string): (r: seq<string>)
    ensures |list| <= |r| <= |list| + 1 && r[..|list|] == list
    ensures var t := JsString.Trim(raw);
      forall a :: a in r <==> a in list || (a == t && t != [])
    ensures NoDuplicates(list) ==> NoDuplicates(r)
    ensures JsString.Trim(raw) == [] || JsString.Trim(raw) in list ==> r == list
    ensures JsString.Trim(raw) != [] && JsString.Trim(raw) !in list ==> r == list + [JsString.Trim(raw)]
  {
    var t := JsString.Trim(raw);
    if t != [] && t !in list then list + [t] else list
  }

  /** The list after `removeAllergy(a)`: every occurrence of `a` is gone and
      every other entry keeps its number of occurrences. */
  function WithoutAllergy(list: seq<string>, a: string): (r: seq<string>)
    ensures a !in r
    ensures multiset(r) == multiset(list)[a := 0]
  {
    if list == [] then []
    else
      assert list == [list[0]] + list[1..];
      (if list[0] == a then [] else [list[0]]) + WithoutAllergy(list[1..], a)
  }

  /** Removal keeps the order of the remaining entries: removing from two
      consecutive parts is removing from each and concatenating. */
  lemma {:induction false} WithoutAllergyAppend(p: seq<string>, q: seq<string>, a: string)
    ensures WithoutAllergy(p + q, a) == WithoutAllergy(p, a) + WithoutAllergy(q, a)
  {
    if p == [] {
      assert p + q == q;
    } else {
      assert (p + q)[0] == p[0];
      assert (p + q)[1..] == p[1..] + q;
      WithoutAllergyAppend(p[1..], q, a);
    }
  }

  /** Removing an entry that is not listed changes nothing. */
  lemma {:induction false} WithoutAbsentAllergy(list: seq<string>, a: string)
    requires a !in list
    ensures WithoutAllergy(list, a) == list
  {
    if list != [] {
      assert a !in list[1..];
      WithoutAbsentAllergy(list[1..], a);
      assert list == [list[0]] + list[1..];
    }
  }

  /** Removal keeps a duplicate-free list duplicate-free. */
  lemma {:induction false} WithoutAllergyKeepsNoDuplicates(list: seq<string>, a: string)
    requires NoDuplicates(list)
    ensures NoDuplicates(WithoutAllergy(list, a))
  {
    if list != [] {
      var rest := list[1..];
      assert NoDuplicates(rest);
      WithoutAllergyKeepsNoDuplicates(rest, a);
      var w := WithoutAllergy(rest, a);
      assert list[0] !in rest;
      assert list[0] !in multiset(w) by {
        assert multiset(w) == multiset(rest)[a := 0];
      }
      var r := WithoutAllergy(list, a);
      if list[0] != a {
        assert r == [list[0]] + w;
        forall i, j | 0 <= i < j < |r| ensures r[i] != r[j] {
          if i == 0 { assert r[j] == w[j - 1]; assert w[j - 1] in multiset(w); } else { assert r[i] == w[i - 1] && r[j] == w[j - 1]; }
        }
      }
    }
  }

  /** Removing twice is removing once. */
  lemma WithoutAllergyIdempotent(list: seq<string>, a: string)
    ensures WithoutAllergy(WithoutAllergy(list, a), a) == WithoutAllergy(list, a)
  {
    WithoutAbsentAllergy(WithoutAllergy(list, a), a);
  }

  /** Adding a value that was not listed and then removing it gives back the
      original list. */
  lemma AddThenRemove(list: seq<string>, raw: string)
    requires JsString.Trim(raw) != [] && JsString.Trim(raw) !in list
    ensures WithoutAllergy(WithAllergy(list, raw), JsString.Trim(raw)) == list
  {
    var t := JsString.Trim(raw);
    WithoutAllergyAppend(list, [t], t);
    WithoutAbsentAllergy(list, t);
  }

  /** Adding the same input twice is adding it once. */
  lemma WithAllergyIdempotent(list: seq<string>, raw: string)
    ensures WithAllergy(WithAllergy(list, raw), raw) == WithAllergy(list, raw)
  {
  }

  // ---------------------------------------------------------------------
  // The component state

  class ProfileEditor {
    var user: Option<UserRecord>
    var formData: FormData
    /** The "add allergy" input field. */
    var newAllergy: string

    /** The state before the user is loaded. */
    constructor ()
      ensures user == None && formData == EmptyForm && newAllergy == ""
    {
      user := None;
      formData := EmptyForm;
      newAllergy := "";
    }

    /** The effect of `loadUser` once `auth.me()` has returned `u`. */
    method LoadUser(u: UserRecord)
      modifies this
      ensures user == Some(u) && formData == FormFromUser(u) && newAllergy == old(newAllergy)
    {
      user := Some(u);
      formData := FormFromUser(u);
    }

    /** `addAllergy`: the list grows by the trimmed input when it is new and
        not blank, and then the input is cleared; otherwise nothing changes.
        No other form field changes. */
    method AddAllergy()
      modifies this
      ensures formData == old(formData).(allergies := WithAllergy(old(formData.allergies), old(newAllergy)))
      ensures newAllergy == if formData.allergies == old(formData.allergies) then old(newAllergy) else ""
      ensures user == old(user)
      ensures NoDuplicates(old(formData.allergies)) ==> NoDuplicates(formData.allergies)
    {
      var t := JsString.Trim(newAllergy);
      if t != [] && t !in formData.allergies {
        formData := formData.(allergies := formData.allergies + [t]);
        newAllergy := "";
      }
    }

    /** `removeAllergy(a)`: every occurrence of `a` leaves the list; no other
        form field and not the input change. */
    method RemoveAllergy(a: string)
      modifies this
      ensures formData == old(formData).(allergies := WithoutAllergy(old(formData.allergies), a))
      ensures newAllergy == old(newAllergy) && user == old(user)
      ensures a !in formData.allergies
    {
      formData := formData.(allergies := WithoutAllergy(formData.allergies, a));
    }
  }
}
