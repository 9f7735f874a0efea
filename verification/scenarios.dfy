/** Two concrete moves, worked out request by request: a small object, and
    a prefix whose second child fails to copy. */
module Scenarios {
  import opened Paths
  import opened ObjectStore
  import opened Relocation
  import opened MoveSteps

  /** A store whose bucket "data" holds "reports/jan.csv" and
      "reports/feb.csv" (4 KiB each) below the prefix "reports", and which
      refuses any copy to key "2024/feb.csv". The threshold is an example
      value. The store ignores the history, so every scenario holds after
      any earlier requests `h`. */
  function ReportsStore(): Storager {
    Storager(
      "data",
      5 * 1024 * 1024 * 1024,
      (h: Trace, k: string) =>
        if k == "reports/jan.csv" || k == "reports/feb.csv" then Found(4096) else NotFound("no such key"),
      (h: Trace, k: string) =>
        if k == "reports" then Listed(["reports", "jan.csv", "feb.csv"]) else Listed([]),
      (h: Trace, input: CopyInput) =>
        if input.key == "2024/feb.csv" then Failed("access denied") else Ok,
      (h: Trace, input: CopyInput, size: nat) => Ok,
      (h: Trace, k: string) => Ok)
  }

  /** Moving "reports/jan.csv" to "2024/jan.csv" of "archive": lookup,
      single-call copy, delete. */
  function JanuaryRequests(): Trace {
    [Get("reports/jan.csv"),
     CopyObject(CopyInput("data/reports/jan.csv", "archive", "2024/jan.csv")),
     Delete("reports/jan.csv")]
  }

  /** Moving "reports/feb.csv" to "2024/feb.csv": lookup and the refused
      copy, and no delete. */
  function FebruaryRequests(): Trace {
    [Get("reports/feb.csv"),
     CopyObject(CopyInput("data/reports/feb.csv", "archive", "2024/feb.csv"))]
  }

  /** The error of the refused copy, naming both locations. */
  function FebruaryError(): MoveError {
    CopyFailed("access denied", Location("data", "reports/feb.csv"), Location("archive", "2024/feb.csv"))
  }

  /** Moving one small object, with separators around both paths: a lookup
      of the trimmed key, a single-call copy to the trimmed destination,
      then the delete of the source; the move succeeds. */
  lemma SmallObjectMove(h: Trace)
    ensures Move(ReportsStore(), 1, h, "/reports/jan.csv", "archive", "2024/jan.csv/", false)
         == Run(Done, JanuaryRequests())
  {
    var st := ReportsStore();
    assert Trim("/reports/jan.csv") == "reports/jan.csv";
    assert Trim("2024/jan.csv/") == "2024/jan.csv";
    JanuaryTransfer(h + [Get("reports/jan.csv")]);
  }

  /** The copy sources of the two objects. */
  lemma CopySourcesOfExample()
    ensures CopySource("data", "reports/jan.csv") == "data/reports/jan.csv"
    ensures CopySource("data", "reports/feb.csv") == "data/reports/feb.csv"
  {
  }

  /** The copy and delete of jan.csv. */
  lemma JanuaryTransfer(h: Trace)
    ensures Transfer(ReportsStore(), h, 4096, "reports/jan.csv", "archive", "2024/jan.csv")
         == Run(Done, JanuaryRequests()[1..])
  {
    var st := ReportsStore();
    var copy := CopyObject(CopyInput("data/reports/jan.csv", "archive", "2024/jan.csv"));
    CopySourcesOfExample();
    assert CopyRequest(st, 4096, "reports/jan.csv", "archive", "2024/jan.csv") == copy;
    assert JanuaryRequests()[1..] == [copy, Delete("reports/jan.csv")];
  }

  /** The refused copy of feb.csv. */
  lemma FebruaryTransfer(h: Trace)
    ensures Transfer(ReportsStore(), h, 4096, "reports/feb.csv", "archive", "2024/feb.csv")
         == Run(Fail(FebruaryError()), FebruaryRequests()[1..])
  {
    var st := ReportsStore();
    var copy := CopyObject(CopyInput("data/reports/feb.csv", "archive", "2024/feb.csv"));
    CopySourcesOfExample();
    assert CopyRequest(st, 4096, "reports/feb.csv", "archive", "2024/feb.csv") == copy;
    assert FebruaryRequests()[1..] == [copy];
  }

  /** The first listed child of "reports" is copied and deleted. */
  lemma JanuaryMoves(h: Trace)
    ensures MoveChild(ReportsStore(), 1, h, "reports", "archive", "2024", "jan.csv")
         == Run(Done, JanuaryRequests())
  {
    assert Join("reports", "jan.csv") == "reports/jan.csv";
    assert Join("2024", "jan.csv") == "2024/jan.csv";
    assert Trim("reports/jan.csv") == "reports/jan.csv";
    assert Trim("2024/jan.csv") == "2024/jan.csv";
    JanuaryTransfer(h + [Get("reports/jan.csv")]);
  }

  /** The second listed child: the store refuses the copy, so nothing is
      deleted and the error names both locations. */
  lemma FebruaryFails(h: Trace)
    ensures MoveChild(ReportsStore(), 1, h, "reports", "archive", "2024", "feb.csv")
         == Run(Fail(FebruaryError()), FebruaryRequests())
  {
    assert Join("reports", "feb.csv") == "reports/feb.csv";
    assert Join("2024", "feb.csv") == "2024/feb.csv";
    assert Trim("reports/feb.csv") == "reports/feb.csv";
    assert Trim("2024/feb.csv") == "2024/feb.csv";
    FebruaryTransfer(h + [Get("reports/feb.csv")]);
  }

  /** The listed children after the prefix's own entry: jan.csv moves,
      feb.csv fails, and the loop stops there. */
  lemma ChildrenStopAtFebruary(h: Trace)
    ensures MoveEach(ReportsStore(), 1, h, "reports", "archive", "2024", ["jan.csv", "feb.csv"])
         == Run(Fail(FebruaryError()), JanuaryRequests() + FebruaryRequests())
  {
    var st := ReportsStore();
    JanuaryMoves(h);
    FebruaryFails(h + JanuaryRequests());
    var both: seq<string> := ["jan.csv", "feb.csv"];
    var last: seq<string> := ["feb.csv"];
    assert both[0] == "jan.csv" && both[1..] == last && last[0] == "feb.csv";
    assert MoveEach(st, 1, h + JanuaryRequests(), "reports", "archive", "2024", last)
        == Run(Fail(FebruaryError()), FebruaryRequests());
  }

  /** The prefix move for any spelling of the two paths that trims to
      "reports" and "2024": the lookup of "reports" finds nothing, so the
      prefix is listed, and the listing's first entry is skipped. */
  lemma PrefixMoveOfTrimmedPaths(h: Trace, sourcePath: string, destPath: string)
    requires Trim(sourcePath) == "reports" && Trim(destPath) == "2024"
    ensures Move(ReportsStore(), 2, h, sourcePath, "archive", destPath, false)
         == Run(Fail(FebruaryError()),
                [Get("reports"), List("reports")] + JanuaryRequests() + FebruaryRequests())
  {
    var st := ReportsStore();
    var names: seq<string> := ["reports", "jan.csv", "feb.csv"];
    assert st.get(h, "reports").NotFound?;
    assert st.list(h + [Get("reports")], "reports") == Listed(names);
    ListingIsExpanded(st, 2, h, sourcePath, "archive", destPath, names);
    assert names[1..] == ["jan.csv", "feb.csv"];
    ChildrenStopAtFebruary(h + [Get("reports")] + [List("reports")]);
    AppendAssoc([Get("reports"), List("reports")], JanuaryRequests(), FebruaryRequests());
  }

  /** Moving the prefix "reports/" to "2024/" of "archive": jan.csv is
      copied and deleted; feb.csv's copy is refused, so the move fails with
      that copy's error, and feb.csv is neither deleted nor followed by any
      other request. */
  lemma PrefixMoveStopsAtFailedCopy(h: Trace)
    ensures Move(ReportsStore(), 2, h, "reports/", "archive", "2024/", false)
         == Run(Fail(FebruaryError()),
                [Get("reports"), List("reports")] + JanuaryRequests() + FebruaryRequests())
  {
    assert Trim("reports/") == "reports";
    assert Trim("2024/") == "2024";
    PrefixMoveOfTrimmedPaths(h, "reports/", "2024/");
  }
}
