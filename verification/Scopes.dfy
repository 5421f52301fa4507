/** The scope list of a client's metadata, kept as one text. */
module Scopes {
  import opened Outcomes
  import opened GoText

  class ClientMetadata {
    var scope: string

    constructor ()
      ensures scope == ""
    {
      scope := "";
    }

    /** None is the nil list. */
    method SetScopes(scopes: Option<seq<string>>)
      modifies this
      ensures scope == if scopes.None? then "" else Join(scopes.value, " ")
    {
      if scopes.None? || |scopes.value| == 0 {
        scope := "";
        return;
      }
      var list := scopes.value;
      var indexOfLastScope := |list| - 1;
      var sb := "";
      for i := 0 to indexOfLastScope
        invariant Join(list, " ") == sb + Join(list[i..], " ")
      {
        assert list[i..][1..] == list[i + 1..];
        sb := sb + list[i];
        sb := sb + " ";
      }
      assert list[indexOfLastScope..] == [list[indexOfLastScope]];
      scope := sb + list[indexOfLastScope];
    }

    method GetScopes() returns (scopes: Option<seq<string>>)
      ensures scopes == ReadScopes(scope)
    {
      var scopesStrings := Split(scope, " ");
      if |scopesStrings| == 1 && scopesStrings[0] == "" {
        return None;
      }
      return Some(scopesStrings);
    }
  }

  function ReadScopes(scope: string): Option<seq<string>> {
    var parts := Split(scope, " ");
    if parts == [""] then None else Some(parts)
  }

  /** A list that was set is read back unchanged exactly when it is not empty, not the list of one empty scope, and no
      scope contains a space. */
  lemma ScopesRoundTrip(scopes: seq<string>)
    ensures ReadScopes(Join(scopes, " ")) == Some(scopes) <==>
            scopes != [] && scopes != [""] && forall i :: 0 <= i < |scopes| ==> ' ' !in scopes[i]
  {
    if scopes != [] {
      SplitAfterJoin(scopes, " ");
      SplittableBySingle(scopes, ' ');
    }
  }

  /** Joining what is read rebuilds any stored text; nothing is read exactly when the text is empty. */
  lemma StoredScopesRebuilt(scope: string)
    ensures ReadScopes(scope).None? <==> scope == ""
    ensures scope != "" ==> Join(ReadScopes(scope).value, " ") == scope
  {
    JoinAfterSplit(scope, " ");
    if Split(scope, " ") == [""] {
      assert Join([""], " ") == "";
    }
  }
}
