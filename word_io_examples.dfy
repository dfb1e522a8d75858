/** The replacement and join transforms on small texts. */
module WordIoExamples {
  import opened WordIo

  /** A value containing its key is inserted once and not expanded again. */
  lemma NoRescan()
    ensures ReplaceAll("a", "a", "aa") == "aa"
    ensures ReplaceAll("ab", "a", "aa") == "aab"
  {
    ReplaceWhole("a", "aa");
    assert "ab"[..1] == "a" && "ab"[1..] == "b";
    assert ReplaceAll("b", "a", "aa") == "b";
  }

  /** Occurrences are taken from the left and do not overlap. */
  lemma NonOverlapping()
    ensures ReplaceAll("aaa", "aa", "b") == "ba"
  {
    assert "aaa"[..2] == "aa" && "aaa"[2..] == "a";
  }

  /** An entry with an empty key is skipped. */
  lemma EmptyKeySkipped()
    ensures Replaced("abc", [("", "x")]) == "abc"
  {
    assert [("", "x")][..0] == [];
  }

  /** Entries apply in the mapping's order, each seeing the output of the
      ones before it. */
  lemma OrderMatters()
    ensures Replaced("ab", [("a", "b"), ("b", "c")]) == "cc"
    ensures Replaced("ab", [("b", "c"), ("a", "b")]) == "bc"
  {
    var r1 := [("a", "b"), ("b", "c")];
    assert r1[..1] == [("a", "b")] && r1[..1][..0] == [];
    assert ReplaceAll("ab", "a", "b") == "bb" by {
      assert "ab"[..1] == "a" && "ab"[1..] == "b";
      assert ReplaceAll("b", "a", "b") == "b";
    }
    assert ReplaceAll("bb", "b", "c") == "cc" by {
      assert "bb"[..1] == "b" && "bb"[1..] == "b";
      ReplaceWhole("b", "c");
    }
    var r2 := [("b", "c"), ("a", "b")];
    assert r2[..1] == [("b", "c")] && r2[..1][..0] == [];
    assert ReplaceAll("ab", "b", "c") == "ac" by {
      assert "ab"[..1] == "a" && "ab"[1..] == "b";
      ReplaceWhole("b", "c");
    }
    assert ReplaceAll("ac", "a", "b") == "bc" by {
      assert "ac"[..1] == "a" && "ac"[1..] == "c";
      assert ReplaceAll("c", "a", "b") == "c";
    }
  }

  /** Empty paragraphs keep their place in the full text. */
  lemma EmptyParagraphKept()
    ensures Join(["a", "", "b"]) == "a\n\nb"
  {
    assert ["a", "", "b"][1..] == ["", "b"];
    assert ["", "b"][1..] == ["b"];
  }
}
