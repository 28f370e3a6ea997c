/** The user list's selection: an ordered list of chosen records, kept in the order they
    were picked, with a per-row "Select"/"Selected" toggle. */
module Selection {
  import opened People
  import opened Wrappers

  /** `s.findIndex(user => user.id === id)`: the first position carrying `id`. */
  function FirstWithId(s: seq<Person>, id: int): (r: Option<nat>)
    ensures r.Some? <==> HasId(s, id)
    ensures r.Some? ==> r.value < |s| && s[r.value].id == id
    ensures r.Some? ==> forall k :: 0 <= k < r.value ==> s[k].id != id
  {
    if |s| == 0 then None
    else if s[0].id == id then Some(0)
    else
      match FirstWithId(s[1..], id)
      case None =>
        assert forall k :: 1 <= k < |s| ==> s[k] == s[1..][k - 1];
        None
      case Some(i) => Some(i + 1)
  }

  /** `userdata.find(user => user.id === id)`: the first roster record carrying `id`. */
  function Find(roster: seq<Person>, id: int): (r: Option<Person>)
    ensures r.Some? <==> HasId(roster, id)
    ensures r.Some? ==> r.value in roster && r.value.id == id
    ensures r.Some? ==>
      exists i :: && 0 <= i < |roster| && roster[i] == r.value
                  && forall k :: 0 <= k < i ==> roster[k].id != id
  {
    match FirstWithId(roster, id)
    case Some(i) => Some(roster[i])
    case None => None
  }

  /** `handleUserSelection(id)`. */
  function Toggle(roster: seq<Person>, selected: seq<Person>, id: int): (r: seq<Person>)
    // a selected id loses its first occurrence; everything else stays, in order
    ensures HasId(selected, id) ==>
      exists i :: && 0 <= i < |selected| && selected[i].id == id
                  && (forall k :: 0 <= k < i ==> selected[k].id != id)
                  && r == selected[..i] + selected[i + 1..]
    // an unselected id known to the roster gets its roster record appended
    ensures !HasId(selected, id) && HasId(roster, id) ==>
      && |r| == |selected| + 1 && r[..|selected|] == selected
      && r[|selected|] in roster && r[|selected|].id == id
      && r[|selected|] == Find(roster, id).value
    // an id the roster does not know changes nothing
    ensures !HasId(selected, id) && !HasId(roster, id) ==> r == selected
  {
    match FirstWithId(selected, id)
    case Some(i) => selected[..i] + selected[i + 1..]
    case None =>
      match Find(roster, id)
      case Some(p) => selected + [p]
      case None => selected
  }

  /** Toggling never makes two selected records share an identifier. */
  lemma ToggleKeepsUniqueIds(roster: seq<Person>, selected: seq<Person>, id: int)
    requires UniqueIds(selected)
    ensures UniqueIds(Toggle(roster, selected, id))
  {
    var r := Toggle(roster, selected, id);
    if HasId(selected, id) {
      var i := FirstWithId(selected, id).value;
      assert r == selected[..i] + selected[i + 1..];
      forall a, b | 0 <= a < b < |r|
        ensures r[a].id != r[b].id
      {
        var a' := if a < i then a else a + 1;
        var b' := if b < i then b else b + 1;
        assert r[a] == selected[a'] && r[b] == selected[b'];
      }
    }
  }

  /** Toggling only ever adds records taken from the roster. */
  lemma ToggleDrawsFromRoster(roster: seq<Person>, selected: seq<Person>, id: int)
    requires forall k :: 0 <= k < |selected| ==> selected[k] in roster
    ensures forall p :: p in Toggle(roster, selected, id) ==> p in roster
  {
    var r := Toggle(roster, selected, id);
    if HasId(selected, id) {
      var i := FirstWithId(selected, id).value;
      assert r == selected[..i] + selected[i + 1..];
      forall p | p in r
        ensures p in roster
      {
        var a :| 0 <= a < |r| && r[a] == p;
        assert r[a] == selected[if a < i then a else a + 1];
      }
    } else if HasId(roster, id) {
      assert r == selected + [r[|selected|]];
    }
  }

  /** For an id the roster knows, toggling flips whether it is selected (the row's
      "Selected"/"Select" label). */
  lemma ToggleFlipsMembership(roster: seq<Person>, selected: seq<Person>, id: int)
    requires UniqueIds(selected)
    requires HasId(roster, id)
    ensures HasId(Toggle(roster, selected, id), id) <==> !HasId(selected, id)
  {
    var r := Toggle(roster, selected, id);
    if HasId(selected, id) {
      var i := FirstWithId(selected, id).value;
      assert r == selected[..i] + selected[i + 1..];
      forall a | 0 <= a < |r|
        ensures r[a].id != id
      {
        assert r[a] == selected[if a < i then a else a + 1];
      }
    } else {
      assert r[|selected|].id == id;
    }
  }

  /** Toggling one id leaves the selected state of every other id as it was. */
  lemma ToggleKeepsOtherIds(roster: seq<Person>, selected: seq<Person>, id: int, other: int)
    requires other != id
    ensures HasId(Toggle(roster, selected, id), other) <==> HasId(selected, other)
  {
    var r := Toggle(roster, selected, id);
    if HasId(selected, id) {
      var i := FirstWithId(selected, id).value;
      assert r == selected[..i] + selected[i + 1..];
      if HasId(selected, other) {
        var b :| 0 <= b < |selected| && selected[b].id == other;
        assert b != i;
        var a := if b < i then b else b - 1;
        assert r[a] == selected[b];
      }
      if HasId(r, other) {
        var a :| 0 <= a < |r| && r[a].id == other;
        assert r[a] == selected[if a < i then a else a + 1];
      }
    } else if HasId(roster, id) {
      if HasId(selected, other) {
        var b :| 0 <= b < |selected| && selected[b].id == other;
        assert r[b] == selected[b];
      }
      if HasId(r, other) {
        var a :| 0 <= a < |r| && r[a].id == other;
        assert a < |selected| && r[a] == selected[a];
      }
    }
  }

  /** Selecting a roster id and then deselecting it restores the previous selection. */
  lemma ToggleTwiceFromUnselected(roster: seq<Person>, selected: seq<Person>, id: int)
    requires !HasId(selected, id)
    ensures Toggle(roster, Toggle(roster, selected, id), id) == selected
  {
    if HasId(roster, id) {
      var once := Toggle(roster, selected, id);
      assert once == selected + [once[|selected|]];
      assert FirstWithId(once, id) == Some(|selected|);
    }
  }

  /** Deselecting a selected id and selecting it again does not restore the list: the
      record (as the roster holds it) moves to the end, behind the others in their order. */
  lemma ToggleTwiceFromSelected(roster: seq<Person>, selected: seq<Person>, id: int)
    requires UniqueIds(selected)
    requires HasId(roster, id) && HasId(selected, id)
    ensures
      var i := FirstWithId(selected, id).value;
      Toggle(roster, Toggle(roster, selected, id), id)
        == selected[..i] + selected[i + 1..] + [Find(roster, id).value]
  {
    var once := Toggle(roster, selected, id);
    ToggleFlipsMembership(roster, selected, id);
    assert !HasId(once, id);
  }

  /** Whatever the order, toggling a roster id twice leaves the same ids selected. */
  lemma ToggleTwiceKeepsSelectedIds(roster: seq<Person>, selected: seq<Person>, id: int)
    requires UniqueIds(selected)
    requires HasId(roster, id)
    ensures forall x :: HasId(Toggle(roster, Toggle(roster, selected, id), id), x) <==> HasId(selected, x)
  {
    var once := Toggle(roster, selected, id);
    ToggleKeepsUniqueIds(roster, selected, id);
    ToggleFlipsMembership(roster, selected, id);
    ToggleFlipsMembership(roster, once, id);
    forall x | x != id
      ensures HasId(Toggle(roster, once, id), x) <==> HasId(selected, x)
    {
      ToggleKeepsOtherIds(roster, selected, id, x);
      ToggleKeepsOtherIds(roster, once, id, x);
    }
  }
}
