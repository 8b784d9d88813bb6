/** The validator accepts more than strict JSON: collections may follow each other without
    a comma, as in [{}{}]. */
module JsonRelaxed {
  import opened Bytes
  import opened JsonScan
  import opened JsonTree
  import opened JsonSearch
  import opened JsonLookup
  import G = JsonGrammar
  import A = JsonAccept

  const ADJACENT: bytes := [LSQUARE, LBRACE, RBRACE, LBRACE, RBRACE, RSQUARE]

  lemma AdjacentAccepted()
    ensures ValidateStatus(ADJACENT) == JSONSuccess
  {
    var c := G.Coll(LBRACE, [], G.Empty, G.Close);
    var t := G.Nest(c, [], G.NoComma, G.Close);
    var d := G.Document([], G.Collection(G.Coll(LSQUARE, [], G.Empty, G.Nest(c, [], G.NoComma, t))), []);
    hide ValidateStatus;
    assert G.CollText(c) == [LBRACE, RBRACE] && G.Depth(c) == 1 by {
      assert G.TailText(LBRACE, G.Close) == [RBRACE] && G.TailDepth(G.Close) == 0;
    }
    assert G.TailText(LSQUARE, t) == [LBRACE, RBRACE, RSQUARE] by { A.NestText(LSQUARE, t); }
    assert G.TailOk(LSQUARE, t) by { assert G.TailOk(LBRACE, G.Close) && G.TailOk(LSQUARE, G.Close); }
    A.NestText(LSQUARE, d.root.c.tail);
    assert G.DocumentText(d) == ADJACENT;
    A.DocumentAccepted(d);
  }

  lemma AdjacentComma()
    ensures CommaEnd(ADJACENT, 3) == (false, 3) && SpaceEnd(ADJACENT, 0) == 0 && SpaceEnd(ADJACENT, 1) == 1
    ensures StringEnd(ADJACENT, 1) == None
  {
  }

  lemma AdjacentFirstValue()
    ensures Brackets(ADJACENT, 1, []) == (JSONSuccess, 3)
  {
    var c := G.Coll(LBRACE, [], G.Empty, G.Close);
    assert G.CollText(c) == [LBRACE, RBRACE] && G.Depth(c) == 1 by {
      assert G.TailText(LBRACE, G.Close) == [RBRACE] && G.TailDepth(G.Close) == 0;
    }
    assert At(ADJACENT, 1, G.CollText(c));
    hide Brackets, At, G.CollText;
    BracketsFromEmpty(ADJACENT, 1, c);
  }

  lemma AdjacentBytes()
    ensures |ADJACENT| == 6 && ADJACENT[0] == LSQUARE && ADJACENT[1] == LBRACE && ADJACENT[3] != G.CloseOf(LSQUARE)
    ensures IsOpen(LSQUARE) && IsOpen(LBRACE) && !IsClose(LBRACE)
  {
  }

  lemma EntryAtParts(b: bytes, i: nat, open: byte, e: Entries, at: Place)
    requires e != NoEntries && EntryAt(b, i, open, e, at)
    ensures at.v == i + |LabelText(e.name)| && ValueEnd(b, at.v) == Some(at.p)
            && CommaEnd(b, at.p) == (e.MoreEntries?, at.k)
    ensures e.LastEntry? ==> At(b, at.k, [G.CloseOf(open)])
  {
    hide At, ValueEnd, CommaEnd, LabelText;
  }

  /** No strict value fills the text [{}{}]: its first entry is not followed by a comma or the end. */
  lemma AdjacentIsNoValue(v: Value)
    requires ValueOk(v) && Depth(v) <= MAX_DEPTH && v.Container? && v.open == LSQUARE
    ensures !At(ADJACENT, 0, ValueText(v))
  {
    hide *;
    if At(ADJACENT, 0, ValueText(v)) {
      AdjacentComma();
      AdjacentBytes();
      ContainerSearched(ADJACENT, 0, v);
      EntriesStart(ADJACENT, 1, LSQUARE, v.entries);
      EntryParts(LSQUARE, v.entries);
      var at := EntrySkipped(ADJACENT, 1, LSQUARE, v.entries);
      EntryAtParts(ADJACENT, 1, LSQUARE, v.entries, at);
      UnnamedText(v.entries.name);
      AdjacentFirstValue();
      ValueEndContainer(ADJACENT, 1, 3);
      CloseIsDelimiter(ADJACENT, at.k, LSQUARE);
    }
  }

  /** No strict document has the accepted text [{}{}]. */
  lemma AdjacentIsNotStrict(before: bytes, v: Value, after: bytes)
    requires G.AllSpace(before) && G.AllSpace(after) && ValueOk(v)
    ensures before + (ValueText(v) + after) != ADJACENT
  {
    hide *;
    StrictAccepted(before, v, after);
    AdjacentAccepted();
    if before + (ValueText(v) + after) == ADJACENT {
      AdjacentComma();
      DocumentWindow(before, v, after);
      AdjacentBytes();
      if v.Scalar? || v.open != LSQUARE { NotSearched(ADJACENT, 0, v, LSQUARE); }
      AdjacentIsNoValue(v);
    }
  }
}
