/** Stored transcripts: immutable raw text, revertible corrections, and the final text they render to. */
module TranscriptStore {
  import opened Results
  import opened Sorting
  import opened Text
  import opened Lexicon
  import opened Corrections

  datatype StoredCorrection = StoredCorrection(correction: AppliedCorrection, revertedAt: Option<int>)

  datatype Transcript = Transcript(id: nat, rawText: string, finalText: string, corrections: seq<StoredCorrection>)

  datatype TranscriptRow = TranscriptRow(rawText: string, finalText: string, correctionsJson: seq<StoredCorrection>)

  datatype CorrectionRow = CorrectionRow(transcriptId: nat, stored: StoredCorrection)

  datatype Database = Database(transcripts: map<nat, TranscriptRow>, corrections: seq<CorrectionRow>)

  datatype StorageError = InvalidCorrection | TranscriptNotFound | ActiveCorrectionNotFound | ConstraintViolation

  // ----- queries -----

  predicate StoredLe(l: StoredCorrection, r: StoredCorrection) {
    CorrectionLe(l.correction, r.correction)
  }

  function Plain(stored: seq<StoredCorrection>): seq<AppliedCorrection> {
    if stored == [] then [] else [stored[0].correction] + Plain(stored[1..])
  }

  function Active(stored: seq<StoredCorrection>): seq<StoredCorrection> {
    if stored == [] then []
    else if stored[0].revertedAt.None? then [stored[0]] + Active(stored[1..])
    else Active(stored[1..])
  }

  /** The correction rows of one transcript in table order. */
  function RowsOf(rows: seq<CorrectionRow>, transcriptId: nat): seq<StoredCorrection> {
    if rows == [] then []
    else if rows[0].transcriptId == transcriptId then [rows[0].stored] + RowsOf(rows[1..], transcriptId)
    else RowsOf(rows[1..], transcriptId)
  }

  /** `SELECT … ORDER BY start_char, end_char, id`. */
  function CorrectionsFor(rows: seq<CorrectionRow>, transcriptId: nat, includeReverted: bool): seq<StoredCorrection> {
    Sort(if includeReverted then RowsOf(rows, transcriptId) else Active(RowsOf(rows, transcriptId)), StoredLe)
  }

  function IdOf(row: CorrectionRow): nat {
    row.stored.correction.id
  }

  // ----- saving -----

  /** The primary key and the check constraint of the correction table. */
  predicate Insertable(rows: seq<CorrectionRow>, stored: StoredCorrection) {
    && stored.correction.startChar <= stored.correction.endChar
    && forall k :: 0 <= k < |rows| ==> IdOf(rows[k]) != stored.correction.id
  }

  function InsertAll(rows: seq<CorrectionRow>, transcriptId: nat, stored: seq<StoredCorrection>)
    : Result<seq<CorrectionRow>, StorageError>
    decreases |stored|
  {
    if stored == [] then Success(rows)
    else if !Insertable(rows, stored[0]) then Failure(ConstraintViolation)
    else InsertAll(rows + [CorrectionRow(transcriptId, stored[0])], transcriptId, stored[1..])
  }

  function Save(db: Database, t: Transcript): Result<Database, StorageError> {
    if Render(t.rawText, Plain(Active(t.corrections))) != Success(t.finalText) then Failure(InvalidCorrection)
    else if t.id in db.transcripts then Failure(ConstraintViolation)
    else
      match InsertAll(db.corrections, t.id, t.corrections)
      case Failure(e) => Failure(e)
      case Success(rows) =>
        Success(Database(db.transcripts[t.id := TranscriptRow(t.rawText, t.finalText, t.corrections)], rows))
  }

  // ----- reverting -----

  predicate IsActiveRow(row: CorrectionRow, transcriptId: nat, correctionId: nat) {
    row.transcriptId == transcriptId && IdOf(row) == correctionId && row.stored.revertedAt.None?
  }

  function CountActive(rows: seq<CorrectionRow>, transcriptId: nat, correctionId: nat): nat {
    if rows == [] then 0
    else
      var rest := CountActive(rows[1..], transcriptId, correctionId);
      if IsActiveRow(rows[0], transcriptId, correctionId) then 1 + rest else rest
  }

  function MarkReverted(rows: seq<CorrectionRow>, transcriptId: nat, correctionId: nat,
                        now: int): (r: seq<CorrectionRow>)
    ensures |r| == |rows|
    ensures forall k :: 0 <= k < |rows| ==> IdOf(r[k]) == IdOf(rows[k]) && r[k].transcriptId == rows[k].transcriptId
  {
    if rows == [] then []
    else
      [if IsActiveRow(rows[0], transcriptId, correctionId)
       then rows[0].(stored := rows[0].stored.(revertedAt := Some(now))) else rows[0]]
      + MarkReverted(rows[1..], transcriptId, correctionId, now)
  }

  function Revert(db: Database, transcriptId: nat, correctionId: nat, now: int): Result<Database, StorageError> {
    if transcriptId !in db.transcripts then Failure(TranscriptNotFound)
    else if CountActive(db.corrections, transcriptId, correctionId) != 1 then Failure(ActiveCorrectionNotFound)
    else
      var rows := MarkReverted(db.corrections, transcriptId, correctionId, now);
      var row := db.transcripts[transcriptId];
      match Render(row.rawText, Plain(CorrectionsFor(rows, transcriptId, false)))
      case Failure(_) => Failure(InvalidCorrection)
      case Success(finalText) =>
        Success(Database(
          db.transcripts[transcriptId := TranscriptRow(row.rawText, finalText,
                                                       CorrectionsFor(rows, transcriptId, true))],
          rows))
  }

  /** The repository over one open database; a failing transaction leaves it as it was. */
  class TranscriptRepository {
    var database: Database

    constructor ()
      ensures database == Database(map[], [])
    {
      database := Database(map[], []);
    }

    method SaveTranscript(t: Transcript) returns (r: Result<(), StorageError>)
      modifies this
      ensures match Save(old(database), t)
              case Success(db) => r == Success(()) && database == db
              case Failure(e) => r == Failure(e) && database == old(database)
    {
      var expectedFinal := RenderCorrections(t.rawText, Plain(Active(t.corrections)));
      if expectedFinal != Success(t.finalText) {
        return Failure(InvalidCorrection);
      }
      if t.id in database.transcripts {
        return Failure(ConstraintViolation);
      }
      var rows, i := database.corrections, 0;
      while i < |t.corrections|
        invariant 0 <= i <= |t.corrections| && database == old(database)
        invariant InsertAll(database.corrections, t.id, t.corrections) == InsertAll(rows, t.id, t.corrections[i..])
      {
        assert t.corrections[i..][1..] == t.corrections[i + 1..];
        if !Insertable(rows, t.corrections[i]) {
          return Failure(ConstraintViolation);
        }
        rows, i := rows + [CorrectionRow(t.id, t.corrections[i])], i + 1;
      }
      database := Database(database.transcripts[t.id := TranscriptRow(t.rawText, t.finalText, t.corrections)], rows);
      r := Success(());
    }

    method RevertCorrection(transcriptId: nat, correctionId: nat, now: int) returns (r: Result<string, StorageError>)
      modifies this
      ensures match Revert(old(database), transcriptId, correctionId, now)
              case Success(db) =>
                && database == db && transcriptId in db.transcripts
                && r == Success(db.transcripts[transcriptId].finalText)
              case Failure(e) => r == Failure(e) && database == old(database)
    {
      if transcriptId !in database.transcripts {
        return Failure(TranscriptNotFound);
      }
      var row := database.transcripts[transcriptId];
      if CountActive(database.corrections, transcriptId, correctionId) != 1 {
        return Failure(ActiveCorrectionNotFound);
      }
      var rows := MarkReverted(database.corrections, transcriptId, correctionId, now);
      var finalText := RenderCorrections(row.rawText, Plain(CorrectionsFor(rows, transcriptId, false)));
      if finalText.Failure? {
        return Failure(InvalidCorrection);
      }
      var updated := TranscriptRow(row.rawText, finalText.value, CorrectionsFor(rows, transcriptId, true));
      database := Database(database.transcripts[transcriptId := updated], rows);
      r := Success(finalText.value);
    }
  }

  // ----- what every stored transcript satisfies -----

  function ActiveOf(db: Database, transcriptId: nat): seq<AppliedCorrection> {
    Plain(Active(RowsOf(db.corrections, transcriptId)))
  }

  /** The final text is what the active corrections render to, and the JSON copy lists the table's rows. */
  ghost predicate Consistent(db: Database, transcriptId: nat)
    requires transcriptId in db.transcripts
  {
    && Render(db.transcripts[transcriptId].rawText, ActiveOf(db, transcriptId))
      == Success(db.transcripts[transcriptId].finalText)
    && multiset(db.transcripts[transcriptId].correctionsJson) == multiset(RowsOf(db.corrections, transcriptId))
  }

  ghost predicate UniqueIds(rows: seq<CorrectionRow>) {
    forall i, j :: 0 <= i < j < |rows| ==> IdOf(rows[i]) != IdOf(rows[j])
  }

  ghost predicate Owned(db: Database) {
    forall k :: 0 <= k < |db.corrections| ==> db.corrections[k].transcriptId in db.transcripts
  }

  ghost predicate Sound(db: Database) {
    && UniqueIds(db.corrections) && Owned(db)
    && forall id :: id in db.transcripts ==> Consistent(db, id)
  }

  // ----- rows under the two operations -----

  lemma {:induction false} RowsOfConcat(a: seq<CorrectionRow>, b: seq<CorrectionRow>, id: nat)
    ensures RowsOf(a + b, id) == RowsOf(a, id) + RowsOf(b, id)
  {
    if a == [] {
      assert a + b == b;
    } else {
      assert (a + b)[1..] == a[1..] + b;
      RowsOfConcat(a[1..], b, id);
    }
  }

  lemma {:induction false} NoForeignRows(rows: seq<CorrectionRow>, id: nat)
    requires forall k :: 0 <= k < |rows| ==> rows[k].transcriptId != id
    ensures RowsOf(rows, id) == []
  {
    if rows != [] { NoForeignRows(rows[1..], id); }
  }

  lemma {:induction false} InsertAllAppends(rows: seq<CorrectionRow>, id: nat, stored: seq<StoredCorrection>)
    requires InsertAll(rows, id, stored).Success? && UniqueIds(rows)
    ensures var r := InsertAll(rows, id, stored).value;
      && UniqueIds(r) && |rows| <= |r| && r[..|rows|] == rows
      && (forall k :: |rows| <= k < |r| ==> r[k].transcriptId == id)
      && RowsOf(r, id) == RowsOf(rows, id) + stored
      && forall other :: other != id ==> RowsOf(r, other) == RowsOf(rows, other)
    decreases |stored|
  {
    if stored == [] {
      assert RowsOf(rows, id) + stored == RowsOf(rows, id);
    } else {
      var row := CorrectionRow(id, stored[0]);
      InsertAllAppends(rows + [row], id, stored[1..]);
      var r := InsertAll(rows, id, stored).value;
      RowsOfConcat(rows, [row], id);
      assert RowsOf([row], id) == [stored[0]];
      assert (RowsOf(rows, id) + [stored[0]]) + stored[1..] == RowsOf(rows, id) + stored;
      assert r[..|rows|] == r[..|rows| + 1][..|rows|];
      forall other | other != id ensures RowsOf(r, other) == RowsOf(rows, other) {
        RowsOfConcat(rows, [row], other);
        assert RowsOf([row], other) == [];
      }
    }
  }

  /** The corrections whose ids are not in `gone`. */
  function Keep(corrections: seq<AppliedCorrection>, gone: set<nat>): seq<AppliedCorrection> {
    if corrections == [] then []
    else if corrections[0].id in gone then Keep(corrections[1..], gone)
    else [corrections[0]] + Keep(corrections[1..], gone)
  }

  lemma {:induction false} MarkedRows(rows: seq<CorrectionRow>, id: nat, correctionId: nat, now: int)
    ensures var r := MarkReverted(rows, id, correctionId, now);
      && Plain(Active(RowsOf(r, id))) == Keep(Plain(Active(RowsOf(rows, id))), {correctionId})
      && forall other :: other != id ==> RowsOf(r, other) == RowsOf(rows, other)
  {
    if rows != [] {
      MarkedRows(rows[1..], id, correctionId, now);
    }
  }

  // ----- sorting commutes with forgetting and with keeping -----

  lemma {:induction false} InsertPlain(x: StoredCorrection, s: seq<StoredCorrection>)
    ensures Plain(Insert(x, s, StoredLe)) == Insert(x.correction, Plain(s), CorrectionLe)
  {
    if s == [] {
    } else if StoredLe(x, s[0]) {
      assert ([x] + s)[1..] == s;
    } else {
      InsertPlain(x, s[1..]);
      assert ([s[0]] + Insert(x, s[1..], StoredLe))[1..] == Insert(x, s[1..], StoredLe);
      assert Plain(s)[1..] == Plain(s[1..]);
    }
  }

  lemma {:induction false} SortPlain(s: seq<StoredCorrection>)
    ensures Plain(Sort(s, StoredLe)) == Sort(Plain(s), CorrectionLe)
  {
    if s != [] {
      SortPlain(s[1..]);
      InsertPlain(s[0], Sort(s[1..], StoredLe));
      assert Plain(s)[1..] == Plain(s[1..]);
    }
  }

  /** The order in which the rows are read does not matter to the rendering. */
  lemma RenderOfQuery(raw: string, stored: seq<StoredCorrection>)
    ensures Render(raw, Plain(Sort(stored, StoredLe))) == Render(raw, Plain(stored))
  {
    SortPlain(stored);
    CorrectionOrder();
    SortSorts(Plain(stored), CorrectionLe);
    SortOfSorted(Sort(Plain(stored), CorrectionLe), CorrectionLe);
  }

  lemma {:induction false} InsertKeep(x: AppliedCorrection, s: seq<AppliedCorrection>, gone: set<nat>)
    requires SortedBy(s, CorrectionLe)
    ensures Keep(Insert(x, s, CorrectionLe), gone)
         == if x.id in gone then Keep(s, gone) else Insert(x, Keep(s, gone), CorrectionLe)
  {
    if s == [] {
    } else if CorrectionLe(x, s[0]) {
      assert ([x] + s)[1..] == s;
      if x.id !in gone { InsertFirst(x, s, gone); }
    } else {
      var t := Insert(x, s[1..], CorrectionLe);
      assert ([s[0]] + t)[1..] == t;
      InsertKeep(x, s[1..], gone);
    }
  }

  lemma {:induction false} InsertFirst(x: AppliedCorrection, s: seq<AppliedCorrection>, gone: set<nat>)
    requires SortedBy(s, CorrectionLe) && (s != [] ==> CorrectionLe(x, s[0]))
    ensures Insert(x, Keep(s, gone), CorrectionLe) == [x] + Keep(s, gone)
  {
    if s != [] && s[0].id in gone {
      if |s| > 1 { assert CorrectionLe(s[0], s[1]); }
      InsertFirst(x, s[1..], gone);
    }
  }

  lemma {:induction false} SortKeep(s: seq<AppliedCorrection>, gone: set<nat>)
    ensures Sort(Keep(s, gone), CorrectionLe) == Keep(Sort(s, CorrectionLe), gone)
  {
    if s != [] {
      SortKeep(s[1..], gone);
      CorrectionOrder();
      SortSorts(s[1..], CorrectionLe);
      InsertKeep(s[0], Sort(s[1..], CorrectionLe), gone);
    }
  }

  // ----- removing corrections never stops a transcript from rendering -----

  lemma {:induction false} RenderKeep(raw: string, ordered: seq<AppliedCorrection>, gone: set<nat>, previousEnd: nat,
                                      earlier: nat)
    requires IsBoundary(raw, previousEnd) && IsBoundary(raw, earlier) && earlier <= previousEnd
    requires RenderFrom(raw, ordered, previousEnd).Success?
    ensures RenderFrom(raw, Keep(ordered, gone), earlier).Success?
    decreases |ordered|
  {
    if ordered != [] {
      var c := ordered[0];
      OffsetAtCharIsBoundary(raw, c.startChar);
      OffsetAtCharIsBoundary(raw, c.endChar);
      var end := ByteOffset(raw, c.endChar);
      if c.id in gone {
        RenderKeep(raw, ordered[1..], gone, end, earlier);
      } else {
        RenderKeep(raw, ordered[1..], gone, end, end);
        assert Keep(ordered, gone)[1..] == Keep(ordered[1..], gone);
      }
    }
  }

  lemma StillRenders(raw: string, corrections: seq<AppliedCorrection>, gone: set<nat>)
    requires Render(raw, corrections).Success?
    ensures Render(raw, Keep(corrections, gone)).Success?
  {
    SortKeep(corrections, gone);
    EndsAreBoundaries(raw);
    RenderKeep(raw, Sort(corrections, CorrectionLe), gone, 0, 0);
  }

  // ----- each operation keeps the store sound -----

  lemma SaveKeepsSound(db: Database, t: Transcript)
    requires Sound(db) && Save(db, t).Success?
    ensures Sound(Save(db, t).value)
  {
    var next := Save(db, t).value;
    InsertAllAppends(db.corrections, t.id, t.corrections);
    NoForeignRows(db.corrections, t.id);
    assert [] + t.corrections == t.corrections;
    forall k | 0 <= k < |next.corrections| ensures next.corrections[k].transcriptId in next.transcripts {
      if k < |db.corrections| { assert next.corrections[..|db.corrections|][k] == db.corrections[k]; }
    }
    forall id | id in next.transcripts ensures Consistent(next, id) {
      if id != t.id { assert Consistent(db, id); }
    }
  }

  lemma {:induction false} CountActiveUnique(rows: seq<CorrectionRow>, id: nat, correctionId: nat)
    requires UniqueIds(rows)
    ensures CountActive(rows, id, correctionId) == 1
      <==> exists k :: 0 <= k < |rows| && IsActiveRow(rows[k], id, correctionId)
    ensures CountActive(rows, id, correctionId) <= 1
  {
    if rows != [] {
      CountActiveUnique(rows[1..], id, correctionId);
      if IsActiveRow(rows[0], id, correctionId) {
        assert forall k :: 0 <= k < |rows[1..]| ==> rows[1..][k] == rows[k + 1];
      } else {
        assert forall k :: 0 < k < |rows| ==> rows[k] == rows[1..][k - 1];
      }
    }
  }

  /** A revert of an active correction always renders, and what it renders is what is left. */
  lemma RevertRenders(db: Database, id: nat, correctionId: nat, now: int)
    requires id in db.transcripts && Consistent(db, id)
    requires CountActive(db.corrections, id, correctionId) == 1
    ensures Revert(db, id, correctionId, now).Success?
    ensures var next := Revert(db, id, correctionId, now).value;
      && next.corrections == MarkReverted(db.corrections, id, correctionId, now)
      && next.transcripts.Keys == db.transcripts.Keys
      && next.transcripts[id].rawText == db.transcripts[id].rawText
      && ActiveOf(next, id) == Keep(ActiveOf(db, id), {correctionId})
      && Consistent(next, id)
      && forall other :: other in db.transcripts && other != id ==> next.transcripts[other] == db.transcripts[other]
  {
    var raw, rows := db.transcripts[id].rawText, MarkReverted(db.corrections, id, correctionId, now);
    MarkedRows(db.corrections, id, correctionId, now);
    RenderOfQuery(raw, Active(RowsOf(rows, id)));
    StillRenders(raw, ActiveOf(db, id), {correctionId});
    SortPermutes(RowsOf(rows, id), StoredLe);
  }

  lemma RevertKeepsSound(db: Database, id: nat, correctionId: nat, now: int)
    requires Sound(db) && id in db.transcripts
    requires CountActive(db.corrections, id, correctionId) == 1
    ensures Revert(db, id, correctionId, now).Success? && Sound(Revert(db, id, correctionId, now).value)
  {
    assert Consistent(db, id);
    RevertRenders(db, id, correctionId, now);
    MarkedRows(db.corrections, id, correctionId, now);
    var next := Revert(db, id, correctionId, now).value;
    forall other | other in next.transcripts ensures Consistent(next, other) {
      if other != id { assert Consistent(db, other); }
    }
  }

  predicate HasActive(db: Database, id: nat, correctionId: nat) {
    exists k :: 0 <= k < |db.corrections| && IsActiveRow(db.corrections[k], id, correctionId)
  }

  /** In a sound store a revert fails only when there is nothing to revert, and leaves a sound store. */
  lemma RevertExact(db: Database, id: nat, correctionId: nat, now: int)
    requires Sound(db)
    ensures Revert(db, id, correctionId, now).Success? <==> id in db.transcripts && HasActive(db, id, correctionId)
    ensures Revert(db, id, correctionId, now).Success? ==>
      var next := Revert(db, id, correctionId, now).value;
      && Sound(next) && next.transcripts.Keys == db.transcripts.Keys
      && next.transcripts[id].rawText == db.transcripts[id].rawText
      && ActiveOf(next, id) == Keep(ActiveOf(db, id), {correctionId})
  {
    CountActiveUnique(db.corrections, id, correctionId);
    if id in db.transcripts && CountActive(db.corrections, id, correctionId) == 1 {
      assert Consistent(db, id);
      RevertRenders(db, id, correctionId, now);
      RevertKeepsSound(db, id, correctionId, now);
    }
  }

  lemma {:induction false} MarkedAt(rows: seq<CorrectionRow>, id: nat, correctionId: nat, now: int, k: nat)
    requires k < |rows|
    ensures MarkReverted(rows, id, correctionId, now)[k] == if IsActiveRow(rows[k], id, correctionId)
      then rows[k].(stored := rows[k].stored.(revertedAt := Some(now))) else rows[k]
  {
    if k > 0 { MarkedAt(rows[1..], id, correctionId, now, k - 1); }
  }

  /** A revert dates exactly one row, the active one it was asked for, with the given time; all other rows and all other
      transcripts are as before. */
  lemma RevertTouchesOneRow(db: Database, id: nat, correctionId: nat, now: int) returns (k: nat)
    requires Sound(db) && Revert(db, id, correctionId, now).Success?
    ensures var next := Revert(db, id, correctionId, now).value;
      && k < |db.corrections| && IsActiveRow(db.corrections[k], id, correctionId)
      && next.corrections == db.corrections[k := CorrectionRow(id, StoredCorrection(
           db.corrections[k].stored.correction, Some(now)))]
      && next.transcripts == db.transcripts[id := next.transcripts[id]]
  {
    CountActiveUnique(db.corrections, id, correctionId);
    k :| 0 <= k < |db.corrections| && IsActiveRow(db.corrections[k], id, correctionId);
    var rows := MarkReverted(db.corrections, id, correctionId, now);
    var dated := CorrectionRow(id, StoredCorrection(db.corrections[k].stored.correction, Some(now)));
    forall j | 0 <= j < |rows|
      ensures rows[j] == if j == k then dated else db.corrections[j]
    {
      MarkedAt(db.corrections, id, correctionId, now, j);
      assert j != k ==> IdOf(db.corrections[j]) != IdOf(db.corrections[k]);
    }
  }

  datatype Operation =
    | SaveTranscript(transcript: Transcript)
    | RevertCorrection(transcriptId: nat, correctionId: nat, now: int)

  function Apply(db: Database, op: Operation): Database {
    var r := match op
      case SaveTranscript(t) => Save(db, t)
      case RevertCorrection(id, correctionId, now) => Revert(db, id, correctionId, now);
    if r.Success? then r.value else db
  }

  function Run(db: Database, ops: seq<Operation>): Database
    decreases |ops|
  {
    if ops == [] then db else Run(Apply(db, ops[0]), ops[1..])
  }

  /** Every run of saves and reverts, failing ones included, keeps every stored transcript consistent. */
  lemma {:induction false} RunsStaySound(db: Database, ops: seq<Operation>)
    requires Sound(db)
    ensures Sound(Run(db, ops))
    decreases |ops|
  {
    if ops != [] {
      match ops[0] {
        case SaveTranscript(t) => if Save(db, t).Success? { SaveKeepsSound(db, t); }
        case RevertCorrection(id, correctionId, now) => RevertExact(db, id, correctionId, now);
      }
      RunsStaySound(Apply(db, ops[0]), ops[1..]);
    }
  }

  // ----- any order of reverts -----

  function RevertMany(db: Database, id: nat, correctionIds: seq<nat>, now: int): Result<Database, StorageError>
    decreases |correctionIds|
  {
    if correctionIds == [] then Success(db)
    else
      match Revert(db, id, correctionIds[0], now)
      case Failure(e) => Failure(e)
      case Success(next) => RevertMany(next, id, correctionIds[1..], now)
  }

  lemma {:induction false} KeepTwice(corrections: seq<AppliedCorrection>, a: set<nat>, b: set<nat>)
    ensures Keep(Keep(corrections, a), b) == Keep(corrections, a + b)
  {
    if corrections != [] {
      KeepTwice(corrections[1..], a, b);
    }
  }

  lemma {:induction false} KeepNothing(corrections: seq<AppliedCorrection>, gone: set<nat>)
    ensures gone == {} ==> Keep(corrections, gone) == corrections
    ensures (forall c :: c in corrections ==> c.id in gone) ==> Keep(corrections, gone) == []
  {
    if corrections != [] {
      KeepNothing(corrections[1..], gone);
      assert corrections == [corrections[0]] + corrections[1..];
    }
  }

  lemma StaysActive(db: Database, id: nat, correctionId: nat, now: int, other: nat)
    requires Sound(db) && Revert(db, id, correctionId, now).Success?
    requires other != correctionId && HasActive(db, id, other)
    ensures HasActive(Revert(db, id, correctionId, now).value, id, other)
  {
    var k :| 0 <= k < |db.corrections| && IsActiveRow(db.corrections[k], id, other);
    MarkedAt(db.corrections, id, correctionId, now, k);
    assert IsActiveRow(Revert(db, id, correctionId, now).value.corrections[k], id, other);
  }

  function Ids(correctionIds: seq<nat>): set<nat> {
    set x | x in correctionIds
  }

  predicate Distinct(s: seq<nat>) {
    forall i, j :: 0 <= i < j < |s| ==> s[i] != s[j]
  }

  /** What any number of reverts of one transcript amounts to. */
  ghost predicate Reverted(db: Database, next: Database, id: nat, gone: set<nat>) {
    && Sound(next) && id in db.transcripts && id in next.transcripts
    && next.transcripts[id].rawText == db.transcripts[id].rawText
    && ActiveOf(next, id) == Keep(ActiveOf(db, id), gone)
  }

  lemma RevertedTwice(db: Database, middle: Database, next: Database, id: nat, a: set<nat>, b: set<nat>)
    requires Reverted(db, middle, id, a) && Reverted(middle, next, id, b)
    ensures Reverted(db, next, id, a + b)
  {
    KeepTwice(ActiveOf(db, id), a, b);
  }

  /** One revert leaves the other corrections active. */
  lemma RevertOne(db: Database, id: nat, correctionId: nat, now: int, rest: seq<nat>)
    requires Sound(db) && id in db.transcripts && HasActive(db, id, correctionId)
    requires forall c :: c in rest ==> c != correctionId && HasActive(db, id, c)
    ensures Revert(db, id, correctionId, now).Success?
    ensures Reverted(db, Revert(db, id, correctionId, now).value, id, {correctionId})
    ensures forall c :: c in rest ==> HasActive(Revert(db, id, correctionId, now).value, id, c)
  {
    RevertExact(db, id, correctionId, now);
    forall c | c in rest ensures HasActive(Revert(db, id, correctionId, now).value, id, c) {
      StaysActive(db, id, correctionId, now, c);
    }
  }

  lemma DistinctTail(s: seq<nat>)
    requires s != [] && Distinct(s)
    ensures Distinct(s[1..]) && Ids(s) == {s[0]} + Ids(s[1..])
    ensures forall c :: c in s[1..] ==> c != s[0] && c in s
  {
  }

  /** Reverting distinct active corrections always succeeds and leaves exactly the remaining ones active. */
  lemma {:induction false} RevertManyLeaves(db: Database, id: nat, correctionIds: seq<nat>, now: int)
    requires Sound(db) && id in db.transcripts && Distinct(correctionIds)
    requires forall c :: c in correctionIds ==> HasActive(db, id, c)
    ensures RevertMany(db, id, correctionIds, now).Success?
    ensures Reverted(db, RevertMany(db, id, correctionIds, now).value, id, Ids(correctionIds))
    decreases |correctionIds|
  {
    if correctionIds == [] {
      KeepNothing(ActiveOf(db, id), {});
      assert Ids(correctionIds) == {};
    } else {
      var c, rest := correctionIds[0], correctionIds[1..];
      DistinctTail(correctionIds);
      RevertOne(db, id, c, now, rest);
      var middle := Revert(db, id, c, now).value;
      RevertManyLeaves(middle, id, rest, now);
      RevertedTwice(db, middle, RevertMany(middle, id, rest, now).value, id, {c}, Ids(rest));
    }
  }

  lemma RevertManyRenders(db: Database, id: nat, correctionIds: seq<nat>, now: int)
    requires Sound(db) && id in db.transcripts && Distinct(correctionIds)
    requires forall c :: c in correctionIds ==> HasActive(db, id, c)
    ensures RevertMany(db, id, correctionIds, now).Success?
    ensures var next := RevertMany(db, id, correctionIds, now).value;
      && id in next.transcripts
      && Render(db.transcripts[id].rawText, Keep(ActiveOf(db, id), Ids(correctionIds)))
        == Success(next.transcripts[id].finalText)
  {
    RevertManyLeaves(db, id, correctionIds, now);
    assert Consistent(RevertMany(db, id, correctionIds, now).value, id);
  }

  /** Two orders of reverting the same corrections end in the same text. */
  lemma RevertOrderIrrelevant(db: Database, id: nat, a: seq<nat>, b: seq<nat>, now: int, later: int)
    requires Sound(db) && id in db.transcripts && Distinct(a) && Distinct(b) && Ids(a) == Ids(b)
    requires forall c :: c in a ==> HasActive(db, id, c)
    ensures RevertMany(db, id, a, now).Success? && RevertMany(db, id, b, later).Success?
    ensures var x, y := RevertMany(db, id, a, now).value, RevertMany(db, id, b, later).value;
      id in x.transcripts && id in y.transcripts && x.transcripts[id].finalText == y.transcripts[id].finalText
  {
    forall c | c in b ensures HasActive(db, id, c) { assert c in Ids(b); }
    RevertManyRenders(db, id, a, now);
    RevertManyRenders(db, id, b, later);
  }

  /** Reverting every active correction brings back the raw text. */
  lemma RevertAllRestoresRaw(db: Database, id: nat, correctionIds: seq<nat>, now: int)
    requires Sound(db) && id in db.transcripts && Distinct(correctionIds)
    requires forall c :: c in correctionIds ==> HasActive(db, id, c)
    requires forall c :: c in ActiveOf(db, id) ==> c.id in correctionIds
    ensures RevertMany(db, id, correctionIds, now).Success?
    ensures var next := RevertMany(db, id, correctionIds, now).value;
      id in next.transcripts && next.transcripts[id].finalText == db.transcripts[id].rawText
  {
    RevertManyRenders(db, id, correctionIds, now);
    KeepNothing(ActiveOf(db, id), Ids(correctionIds));
    EndsAreBoundaries(db.transcripts[id].rawText);
  }
}
