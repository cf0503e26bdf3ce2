/** The inverted index from atoms to the tokens that contain them. */
module AtomsIndex {
  import opened Types
  import opened Collections
  import opened Matching

  ghost predicate AreKnown(contents: Contents, ids: seq<TokenId>) {
    forall i :: 0 <= i < |ids| ==> ids[i] in contents
  }

  class AtomsIndex {
    var index: map<Atom, set<TokenId>>

    constructor ()
      ensures index == map[]
    {
      index := map[];
    }

    function TokensContainingAtom(atom: Atom): set<TokenId>
      reads this
    {
      if atom in index then index[atom] else {}
    }

    // The index knows exactly the tokens of the pool, each under all of its atoms, and has no empty entries.
    ghost predicate Indexes(contents: Contents, pool: set<TokenId>)
      reads this
    {
      && (forall t :: t in pool ==> t in contents)
      && (forall atom, t :: t in TokensContainingAtom(atom) <==> t in pool && t in contents && atom in contents[t])
      && HasNoEmptyEntries()
    }

    ghost predicate HasNoEmptyEntries()
      reads this
    {
      forall atom :: atom in index ==> index[atom] != {}
    }

    lemma IndexesMore(contents: Contents, more: Contents, pool: set<TokenId>)
      requires Indexes(contents, pool)
      requires forall t :: t in contents ==> t in more && more[t] == contents[t]
      ensures Indexes(more, pool)
    {
    }

    method AddTokens(tokenIds: seq<TokenId>, contents: Contents, ghost pool: set<TokenId>)
      requires Indexes(contents, pool) && AreKnown(contents, tokenIds)
      modifies this
      ensures Indexes(contents, pool + Elements(tokenIds))
    {
      for i := 0 to |tokenIds|
        invariant Indexes(contents, pool + Elements(tokenIds[..i]))
      {
        assert tokenIds[..i + 1][..i] == tokenIds[..i];
        AddToken(tokenIds[i], contents, pool + Elements(tokenIds[..i]));
      }
      assert tokenIds[..|tokenIds|] == tokenIds;
    }

    method AddToken(token: TokenId, contents: Contents, ghost pool: set<TokenId>)
      requires Indexes(contents, pool) && token in contents
      modifies this
      ensures Indexes(contents, pool + {token})
    {
      var atoms := contents[token];
      for j := 0 to |atoms|
        invariant forall atom, t :: t in TokensContainingAtom(atom) <==>
                    (t in pool && t in contents && atom in contents[t]) || (t == token && atom in atoms[..j])
        invariant HasNoEmptyEntries()
      {
        assert atoms[..j + 1] == atoms[..j] + [atoms[j]];
        assert forall atom :: atom in atoms[..j + 1] <==> atom in atoms[..j] || atom == atoms[j];
        label Before:
        index := index[atoms[j] := TokensContainingAtom(atoms[j]) + {token}];
        assert forall atom, t :: t in TokensContainingAtom(atom) <==>
                 t in old@Before(TokensContainingAtom(atom)) || (t == token && atom == atoms[j]);
      }
      assert atoms[..|atoms|] == atoms;
    }

    method RemoveTokens(tokenIds: seq<TokenId>, contents: Contents, ghost pool: set<TokenId>)
      requires Indexes(contents, pool) && AreKnown(contents, tokenIds)
      modifies this
      ensures Indexes(contents, pool - Elements(tokenIds))
    {
      var involvedAtoms := InvolvedAtoms(tokenIds, contents);
      var remaining := involvedAtoms;
      while remaining != {}
        invariant remaining <= involvedAtoms
        invariant forall atom :: atom !in involvedAtoms || atom in remaining ==>
                    TokensContainingAtom(atom) == old(TokensContainingAtom(atom))
        invariant forall atom :: atom in involvedAtoms && atom !in remaining ==>
                    forall t :: t in TokensContainingAtom(atom) <==> t in old(TokensContainingAtom(atom)) && t !in tokenIds
        invariant HasNoEmptyEntries()
      {
        var atom := Pick(remaining);
        RemoveFromEntry(atom, tokenIds);
        remaining := remaining - {atom};
      }
      forall atom, t
        ensures t in TokensContainingAtom(atom) <==>
                t in pool - Elements(tokenIds) && t in contents && atom in contents[t]
      {
        if t in tokenIds && t in contents && atom in contents[t] {
          assert atom in involvedAtoms;
        }
      }
    }

    // Takes the tokens out of the entry of one atom, and the entry out of the index if nothing is left in it.
    method RemoveFromEntry(atom: Atom, tokenIds: seq<TokenId>)
      modifies this
      ensures forall t :: t in TokensContainingAtom(atom) <==> t in old(TokensContainingAtom(atom)) && t !in tokenIds
      ensures forall x :: x != atom ==> TokensContainingAtom(x) == old(TokensContainingAtom(x))
      ensures atom in index <==> TokensContainingAtom(atom) != {}
      ensures old(HasNoEmptyEntries()) ==> HasNoEmptyEntries()
    {
      var kept := Without(TokensContainingAtom(atom), tokenIds);
      index := if kept == {} then index - {atom} else index[atom := kept];
    }

    static method InvolvedAtoms(tokenIds: seq<TokenId>, contents: Contents) returns (atoms: set<Atom>)
      requires AreKnown(contents, tokenIds)
      ensures forall atom :: atom in atoms <==> exists i :: 0 <= i < |tokenIds| && atom in contents[tokenIds[i]]
    {
      atoms := {};
      for i := 0 to |tokenIds|
        invariant forall atom :: atom in atoms <==> exists k :: 0 <= k < i && atom in contents[tokenIds[k]]
      {
        atoms := atoms + (set x | x in contents[tokenIds[i]]);
      }
    }

    // Erases the listed tokens from a set, one at a time.
    static method Without(tokens: set<TokenId>, tokenIds: seq<TokenId>) returns (kept: set<TokenId>)
      ensures forall t :: t in kept <==> t in tokens && t !in tokenIds
    {
      kept := tokens;
      var remaining := tokens;
      while remaining != {}
        invariant remaining <= tokens
        invariant forall t :: t in kept <==> t in tokens && (t !in remaining ==> t !in tokenIds)
      {
        var token := Pick(remaining);
        if token in tokenIds {
          kept := kept - {token};
        }
        remaining := remaining - {token};
      }
    }
  }
}
