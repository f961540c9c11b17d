/** Concrete lines run through the model: the segmenter's verdicts, last-occurrence
    redirection, the wildcard slot and the shape of a three-stage pipeline. */
module Samples {
  import opened Opt
  import opened Commands
  import opened Shell

  /** The separators of the prefix "ls |". */
  lemma PipeOfTwoPrefix()
    ensures SepIndices(["ls", "|"]) == [1]
  {
    var q := ["ls", "|"];
    assert q[..1] == ["ls"] && ["ls"][..0] == [];
    assert !IsSeparator("ls") && IsSeparator("|");
  }

  /** The padded line of "ls | wc" and the indices of its separators. */
  lemma PipeOfTwoLine()
    ensures Padded(["ls", "|", "wc"]) == ["ls", "|", "wc", ";"]
    ensures SepIndices(["ls", "|", "wc", ";"]) == [1, 3]
  {
    PipeOfTwoPrefix();
    var p := ["ls", "|", "wc", ";"];
    assert p[..3] == ["ls", "|", "wc"] && ["ls", "|", "wc"][..2] == ["ls", "|"];
    assert !IsSeparator("wc") && IsSeparator(";");
  }

  /** "ls | wc" is two commands, closed by the "|" at index 1 and the appended ";" at index 3. */
  lemma PipeOfTwo()
    ensures SegmentResult(["ls", "|", "wc"]) == 2
    ensures SepIndices(Padded(["ls", "|", "wc"])) == [1, 3]
  {
    PipeOfTwoLine();
    var p := ["ls", "|", "wc", ";"];
    assert !AdjacentAt(p, 1) && !AdjacentAt(p, 2) && !AdjacentAt(p, 3);
    assert !HasAdjacent(p);
  }

  /** The two records of "ls | wc": "ls" closed by "|", and "wc" closed by the appended ";". */
  lemma PipeOfTwoRecords()
    ensures Fill(EmptyCommand, Padded(["ls", "|", "wc"]), 0) == EmptyCommand.(first := 0, last := 0, sep := Some("|"))
    ensures Fill(EmptyCommand, Padded(["ls", "|", "wc"]), 1) == EmptyCommand.(first := 2, last := 2, sep := Some(";"))
  {
    PipeOfTwoLine();
  }

  /** The three rejected lines: a leading "|", two adjacent "|", a final "|". */
  lemma RejectedLines()
    ensures SegmentResult(["|", "ls"]) == -3
    ensures SegmentResult(["ls", "|", "|", "wc"]) == -2
    ensures SegmentResult(["ls", "|"]) == -4
  {
    assert AdjacentAt(Padded(["ls", "|", "|", "wc"]), 2);
    var p := Padded(["ls", "|"]);
    assert p == ["ls", "|"];
    if HasAdjacent(p) {
      var i :| 0 < i < |p| && AdjacentAt(p, i);
      assert i == 1;
    }
  }

  /** "cat < a.txt < b.txt": the last "<" wins. */
  lemma LastRedirectionWins()
    ensures RedirectTarget([Some("cat"), Some("<"), Some("a.txt"), Some("<"), Some("b.txt"), Some(";")], 0, 4, StdinOp, None)
            == Some("b.txt")
  {
  }

  /** "cp *.c *.h dest": only the last wildcard argument, at index 2, is expanded. */
  lemma LastWildcardSlot()
    ensures LastWildcard([Some("cp"), Some("*.c"), Some("*.h"), Some("dest")], 4) == 2
  {
    assert !IsWildcardArg("dest") by {
      assert "dest" == ['d', 'e', 's', 't'];
    }
    assert IsWildcardArg("*.h") by {
      assert "*.h"[0] == '*';
    }
  }

  /** "a | b | c": two pipes, four descriptors, three children and three waits. */
  lemma ThreeStagePipeline()
    ensures UniformPlan(0, 2).descriptors == 4
    ensures |UniformPlan(0, 2).stages| == 3 && UniformPlan(0, 2).waits == 3
    ensures UniformPlan(0, 2).stages == [Stage(0, None, Some(1), true), Stage(1, Some(0), Some(3), false), Stage(2, Some(2), None, false)]
  {
  }
}
