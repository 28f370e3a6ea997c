/** "Add To Team": the selection becomes the team, with the set of domains it covers. */
module Team {
  import opened People

  /** The "Add To Team" button is enabled only while somebody is selected. */
  function CanAddToTeam(selected: seq<Person>): (r: bool)
    ensures r <==> exists id :: HasId(selected, id)
  {
    assert |selected| > 0 ==> HasId(selected, selected[0].id);
    |selected| != 0
  }

  /** `addToTeam`: records each selected user's domain as a key of `uniqueDomains`, then
      hands the selection on unchanged, in selection order, as the team. */
  method AddToTeam(selected: seq<Person>) returns (team: seq<Person>, domains: set<string>)
    ensures team == selected
    ensures forall d :: d in domains <==> exists k :: 0 <= k < |selected| && selected[k].domain == d
  {
    domains := {};
    var i := 0;
    while i < |selected|
      invariant 0 <= i <= |selected|
      invariant forall d :: d in domains <==> exists k :: 0 <= k < i && selected[k].domain == d
    {
      domains := domains + {selected[i].domain};
      i := i + 1;
    }
    team := selected;
  }
}
