/**
The schema migration of `initializeTable`, run by any number of adapters on one table at once.
Each adapter is a program counter with what it has read so far; each SQL statement is one atomic
operation on the table, and the schedule decides which adapter sends its next statement.
*/
module MysqlSchema {
  import opened Wrappers
  import Utf8

  const MAX_INDEX_BYTES: nat := 3072
  const BYTES_PER_CODE_POINT: nat := 4

  /** A character set and the most bytes one character takes in it. */
  datatype Charset = Utf8mb4 | Other(id: nat, maxBytes: nat)

  datatype ColType = Text(charset: Charset, width: nat) | Binary(width: nat) | Unsized

  /** Stored bytes: `text` encoded in `charset`. */
  datatype Cell = Cell(charset: Charset, text: string)

  datatype Row = Row(id: Cell, ns: Cell)

  datatype Index = Index(columns: seq<string>, unique: bool)

  datatype Table = Table(
    idType: ColType, nsType: Option<ColType>, primaryKey: bool, index: Option<Index>,
    expires: bool, expiresIndex: bool, rows: seq<Row>)

  const TARGET_INDEX := Index(["namespace", "id"], true)

  function MaxBytes(c: Charset): nat { if c.Utf8mb4? then 4 else c.maxBytes }

  /** What a client reads from a cell of a column; a binary column is decoded as UTF-8. */
  function Read(t: ColType, c: Cell): Option<string> {
    match t
    case Text(charset, _) => if c.charset == charset then Some(c.text) else None
    case Binary(_) => if c.charset == Utf8mb4 then Some(c.text) else None
    case Unsized => Some(c.text)
  }

  function Utf8Length(s: string): nat {
    if s == "" then 0
    else (if s[0] < '\U{80}' then 1 else if s[0] < '\U{800}' then 2 else if s[0] < '\U{10000}' then 3 else 4)
         + Utf8Length(s[1..])
  }

  lemma {:induction false} Utf8LengthBound(s: string)
    ensures Utf8Length(s) <= 4 * |s|
  {
    if s != "" { Utf8LengthBound(s[1..]); }
  }

  // ----- The statements -----

  datatype Error = DuplicateColumn | NoSuchKey | DuplicateKeyName | DuplicateEntry | BadString | TooLong | IndexTooLong
                 | NoSuchColumn | WidthUnknown

  datatype Answer = Ok(table: Table) | Err(error: Error)

  // ----- Uniqueness -----

  function WithoutTrailingSpaces(s: string): string
    decreases |s|
  {
    if s != "" && s[|s| - 1] == ' ' then WithoutTrailingSpaces(s[..|s| - 1]) else s
  }

  /** Whether a unique key takes two values for one: bytes are compared as they are, text under
      `utf8mb4_bin` without its trailing spaces. */
  predicate SameValue(t: ColType, a: string, b: string) {
    if t.Text? then WithoutTrailingSpaces(a) == WithoutTrailingSpaces(b) else a == b
  }

  predicate SameId(t: Table, i: nat, j: nat)
    requires i < |t.rows| && j < |t.rows|
  {
    SameValue(t.idType, t.rows[i].id.text, t.rows[j].id.text)
  }

  predicate SameNamespace(t: Table, i: nat, j: nat)
    requires i < |t.rows| && j < |t.rows|
  {
    t.nsType.Some? ==> SameValue(t.nsType.value, t.rows[i].ns.text, t.rows[j].ns.text)
  }

  predicate SameKey(t: Table, columns: seq<string>, i: nat, j: nat)
    requires i < |t.rows| && j < |t.rows|
  {
    ("id" in columns ==> SameId(t, i, j)) && ("namespace" in columns ==> SameNamespace(t, i, j))
  }

  /** Two rows break a key of the table, were its text compared under `utf8mb4_bin`. */
  ghost predicate ClashAt(t: Table, i: nat, j: nat)
    requires i < |t.rows| && j < |t.rows|
  {
    (t.primaryKey && SameId(t, i, j)) || (t.index.Some? && t.index.value.unique && SameKey(t, t.index.value.columns, i, j))
  }

  ghost predicate Clashes(t: Table) { exists i, j :: 0 <= i < j < |t.rows| && ClashAt(t, i, j) }

  /** Two rows would break a unique key on namespace and id. */
  ghost predicate Duplicates(t: Table) {
    exists i, j :: 0 <= i < j < |t.rows| && SameKey(t, TARGET_INDEX.columns, i, j)
  }

  /** A column change is refused if it would break a key. */
  ghost function Unique(t: Table): Answer { if Clashes(t) then Err(DuplicateEntry) else Checked(t) }

  function ColumnBytes(t: ColType): nat {
    match t
    case Text(c, w) => w * MaxBytes(c)
    case Binary(w) => w
    case Unsized => 0
  }

  function IndexBytes(t: Table): nat {
    ColumnBytes(t.idType) + if t.nsType.Some? then ColumnBytes(t.nsType.value) else 0
  }

  /** A change is refused if it would outgrow an index on both key columns. */
  function Checked(t: Table): Answer {
    if t.index.Some? && IndexBytes(t) > MAX_INDEX_BYTES then Err(IndexTooLong) else Ok(t)
  }

  function CreateTable(db: Option<Table>, keyBytes: nat, nsBytes: nat): Table {
    match db
    case Some(t) => t
    case None => Table(Binary(keyBytes), Some(Binary(nsBytes)), false, Some(TARGET_INDEX), true, true, [])
  }

  function AddNamespace(t: Table, nsBytes: nat): Answer {
    if t.nsType.Some? then Err(DuplicateColumn)
    else Checked(t.(nsType := Some(Binary(nsBytes)),
                    rows := seq(|t.rows|, i requires 0 <= i < |t.rows| => t.rows[i].(ns := Cell(Utf8mb4, "")))))
  }

  /** `MODIFY COLUMN c VARCHAR(w) CHARACTER SET utf8mb4`: a text column is transcoded. */
  function ToUtf8(c: Cell): Cell { Cell(Utf8mb4, c.text) }

  predicate TextFits(t: ColType, c: Cell, w: nat) { |c.text| <= w && (t.Binary? ==> c.charset == Utf8mb4) }

  predicate AllTextFits(t: Table, idWidth: Option<nat>, nsWidth: Option<nat>)
    requires nsWidth.Some? ==> t.nsType.Some?
  {
    && (idWidth.Some? ==> forall i :: 0 <= i < |t.rows| ==> TextFits(t.idType, t.rows[i].id, idWidth.value))
    && (nsWidth.Some? ==> forall i :: 0 <= i < |t.rows| ==> TextFits(t.nsType.value, t.rows[i].ns, nsWidth.value))
  }

  function TextTable(t: Table, idWidth: Option<nat>, nsWidth: Option<nat>): Table {
    t.(idType := if idWidth.Some? then Text(Utf8mb4, idWidth.value) else t.idType,
       nsType := if nsWidth.Some? then Some(Text(Utf8mb4, nsWidth.value)) else t.nsType,
       rows := seq(|t.rows|, i requires 0 <= i < |t.rows| => Row(
         if idWidth.Some? then ToUtf8(t.rows[i].id) else t.rows[i].id,
         if nsWidth.Some? then ToUtf8(t.rows[i].ns) else t.rows[i].ns)))
  }

  ghost function ModifyText(t: Table, idWidth: Option<nat>, nsWidth: Option<nat>): Answer {
    if nsWidth.Some? && t.nsType.None? then Err(NoSuchColumn)
    else if !AllTextFits(t, idWidth, nsWidth) then Err(BadString)
    else Unique(TextTable(t, idWidth, nsWidth))
  }

  /** `MODIFY COLUMN c VARBINARY(b)`: the stored bytes stay as they are. */
  ghost function ModifyBinary(t: Table, idBytes: Option<nat>, nsBytes: Option<nat>): Answer {
    if nsBytes.Some? && t.nsType.None? then Err(NoSuchColumn)
    else if !AllBytesFit(t, idBytes, nsBytes) then Err(TooLong)
    else Unique(BinaryTable(t, idBytes, nsBytes))
  }

  predicate AllBytesFit(t: Table, idBytes: Option<nat>, nsBytes: Option<nat>) {
    && (idBytes.Some? ==> forall i :: 0 <= i < |t.rows| ==> Utf8Length(t.rows[i].id.text) <= idBytes.value)
    && (nsBytes.Some? ==> forall i :: 0 <= i < |t.rows| ==> Utf8Length(t.rows[i].ns.text) <= nsBytes.value)
  }

  function BinaryTable(t: Table, idBytes: Option<nat>, nsBytes: Option<nat>): Table {
    t.(idType := if idBytes.Some? then Binary(idBytes.value) else t.idType,
       nsType := if nsBytes.Some? then Some(Binary(nsBytes.value)) else t.nsType)
  }

  function DropPrimaryKey(t: Table): Answer {
    if !t.primaryKey then Err(NoSuchKey) else Ok(t.(primaryKey := false))
  }

  ghost function AddUnique(t: Table): Answer {
    if t.nsType.None? then Err(NoSuchColumn)
    else if IndexBytes(t) > MAX_INDEX_BYTES then Err(IndexTooLong)
    else if Duplicates(t) then Err(DuplicateEntry)
    else Ok(t.(index := Some(TARGET_INDEX)))
  }

  /** `DROP INDEX i, ADD UNIQUE INDEX i (namespace, id)`. */
  ghost function ReplaceIndex(t: Table): Answer {
    if t.index.None? then Err(NoSuchKey) else AddUnique(t)
  }

  ghost function CreateUniqueIndex(t: Table): Answer {
    if t.index.Some? then Err(DuplicateKeyName) else AddUnique(t)
  }

  function AddExpires(t: Table): Answer {
    if t.expires then Err(DuplicateColumn) else Ok(t.(expires := true))
  }

  function CreateExpiresIndex(t: Table): Answer {
    if t.expiresIndex then Err(DuplicateKeyName)
    else if !t.expires then Err(NoSuchColumn)
    else Ok(t.(expiresIndex := true))
  }

  // ----- One adapter -----

  datatype Pc =
    | Create | Show | AddColumn | ShowAgain
    | ToText(idWidth: Option<nat>, nsWidth: Option<nat>)
    | ToBinary(idWidth: Option<nat>, nsWidth: Option<nat>)
    | DropKey | ShowIndex | FixIndex(present: bool) | AddExpiry | IndexExpiry
    | Done | Failed(error: Error)

  datatype Proc = Proc(keyBytes: nat, nsBytes: nat, pc: Pc)

  /** `getTargetByteLength`; a column without a width throws. */
  function TargetBytes(t: ColType): Option<nat> {
    match t
    case Text(_, w) => Some(w * BYTES_PER_CODE_POINT)
    case Binary(w) => Some(w)
    case Unsized => None
  }

  /** The width check on what `SHOW COLUMNS` returned. */
  function CheckWidths(t: Table, nsBytes: nat): Option<Error> {
    var ns := if t.nsType.Some? then TargetBytes(t.nsType.value) else Some(nsBytes);
    match (TargetBytes(t.idType), ns)
    case (Some(a), Some(b)) => if a + b > MAX_INDEX_BYTES then Some(IndexTooLong) else None
    case _ => Some(WidthUnknown)
  }

  function NeedsText(t: ColType): Option<nat> {
    match t
    case Text(_, w) => Some(w)
    case _ => None
  }

  function Scaled(w: Option<nat>): Option<nat> {
    match w
    case Some(n) => Some(n * BYTES_PER_CODE_POINT)
    case None => None
  }

  datatype Outcome = Outcome(pc: Pc, table: Table)

  /** A statement whose error `tolerated` means that another adapter was first. */
  function Tolerate(t: Table, a: Answer, tolerated: Option<Error>, next: Pc): Outcome {
    match a
    case Ok(u) => Outcome(next, u)
    case Err(e) => Outcome(if tolerated == Some(e) then next else Failed(e), t)
  }

  /** The next statement of an adapter on an existing table. */
  ghost function Step(p: Proc, t: Table): Outcome {
    match p.pc
    case Create => Outcome(Show, t)
    case Show =>
      (match CheckWidths(t, p.nsBytes)
       case Some(e) => Outcome(Failed(e), t)
       case None => Outcome(if t.nsType.None? then AddColumn else ShowAgain, t))
    case AddColumn => Tolerate(t, AddNamespace(t, p.nsBytes), Some(DuplicateColumn), ShowAgain)
    case ShowAgain =>
      if t.nsType.None? then Outcome(Failed(NoSuchColumn), t)
      else (match CheckWidths(t, p.nsBytes)
            case Some(e) => Outcome(Failed(e), t)
            case None =>
              var id, ns := NeedsText(t.idType), NeedsText(t.nsType.value);
              Outcome(if id.Some? || ns.Some? then ToText(id, ns) else DropKey, t))
    case ToText(id, ns) => Tolerate(t, ModifyText(t, id, ns), None, ToBinary(id, ns))
    case ToBinary(id, ns) => Tolerate(t, ModifyBinary(t, Scaled(id), Scaled(ns)), None, DropKey)
    case DropKey => Tolerate(t, DropPrimaryKey(t), Some(NoSuchKey), ShowIndex)
    case ShowIndex =>
      Outcome(if t.index == Some(TARGET_INDEX) then AddExpiry else FixIndex(t.index.Some?), t)
    case FixIndex(true) => Tolerate(t, ReplaceIndex(t), None, AddExpiry)
    case FixIndex(false) => Tolerate(t, CreateUniqueIndex(t), Some(DuplicateKeyName), AddExpiry)
    case AddExpiry => Tolerate(t, AddExpires(t), Some(DuplicateColumn), IndexExpiry)
    case IndexExpiry => Tolerate(t, CreateExpiresIndex(t), Some(DuplicateKeyName), Done)
    case Done => Outcome(Done, t)
    case Failed(e) => Outcome(Failed(e), t)
  }

  /** A database with its table, and the adapters that initialize it. */
  datatype World = World(db: Option<Table>, procs: seq<Proc>)

  ghost function Move(w: World, k: nat): (v: World)
    requires k < |w.procs|
    ensures |v.procs| == |w.procs|
  {
    var p := w.procs[k];
    if p.pc == Create then World(Some(CreateTable(w.db, p.keyBytes, p.nsBytes)), w.procs[k := p.(pc := Show)])
    else if w.db.None? then w
    else
      var o := Step(p, w.db.value);
      World(Some(o.table), w.procs[k := p.(pc := o.pc)])
  }

  ghost predicate Schedule(procs: nat, ks: seq<nat>) { forall j :: 0 <= j < |ks| ==> ks[j] < procs }

  /** The adapters take their turns as scheduled. */
  ghost function Run(w: World, ks: seq<nat>): World
    requires Schedule(|w.procs|, ks)
    ensures |Run(w, ks).procs| == |w.procs|
    decreases |ks|
  {
    if ks == [] then w else Run(Move(w, ks[0]), ks[1..])
  }

  // ----- What is promised -----

  ghost predicate Target(t: Table) {
    t.idType.Binary? && t.nsType.Some? && t.nsType.value.Binary? && !t.primaryKey
    && t.index == Some(Index(["namespace", "id"], true)) && t.expires && t.expiresIndex
  }

  /** The namespace of a row of the original table. */
  function OldNamespace(orig: Table, i: nat): string
    requires i < |orig.rows|
  {
    if orig.nsType.Some? then orig.rows[i].ns.text else ""
  }

  /** Every row still has its id and its namespace, as a client reads them. */
  ghost predicate KeptRows(orig: Table, t: Table) {
    |t.rows| == |orig.rows|
    && (forall i :: 0 <= i < |t.rows| ==> Read(t.idType, t.rows[i].id) == Some(orig.rows[i].id.text))
    && (t.nsType.Some? ==>
          forall i :: 0 <= i < |t.rows| ==> Read(t.nsType.value, t.rows[i].ns) == Some(OldNamespace(orig, i)))
  }

  ghost predicate CellsFit(t: ColType, c: Cell) {
    match t
    case Text(charset, w) => c.charset == charset && |c.text| <= w && MaxBytes(charset) <= 4
    case Binary(w) => c.charset == Utf8mb4 && Utf8Length(c.text) <= w
    case Unsized => false
  }

  ghost predicate KnownCharset(t: ColType) { t.Text? ==> MaxBytes(t.charset) <= 4 }

  /** Two rows of the original table have one namespace and id, as a client reads them. */
  predicate SameRow(orig: Table, i: nat, j: nat)
    requires i < |orig.rows| && j < |orig.rows|
  {
    orig.rows[i].id.text == orig.rows[j].id.text && OldNamespace(orig, i) == OldNamespace(orig, j)
  }

  ghost predicate RowsDiffer(orig: Table) { forall i, j :: 0 <= i < j < |orig.rows| ==> !SameRow(orig, i, j) }

  /** What the database guarantees of a column of bytes or text with a unique key. */
  ghost predicate KeysHold(orig: Table) {
    && (orig.primaryKey ==> forall i, j :: 0 <= i < j < |orig.rows| ==> orig.rows[i].id.text != orig.rows[j].id.text)
    && (orig.index.Some? && orig.index.value.unique ==>
          forall i, j :: 0 <= i < j < |orig.rows| ==>
            || ("id" in orig.index.value.columns && orig.rows[i].id.text != orig.rows[j].id.text)
            || ("namespace" in orig.index.value.columns && OldNamespace(orig, i) != OldNamespace(orig, j)))
  }

  /** A legacy table with known widths within the index limit, rows that fit their columns, and keys that
      hold. */
  ghost predicate Legacy(orig: Table, nsBytes: nat) {
    && CheckWidths(orig, nsBytes) == None
    && KnownCharset(orig.idType) && (orig.nsType.Some? ==> KnownCharset(orig.nsType.value))
    && (orig.index.Some? ==> IndexBytes(orig) <= MAX_INDEX_BYTES)
    && (orig.expiresIndex ==> orig.expires)
    && (forall i :: 0 <= i < |orig.rows| ==> CellsFit(orig.idType, orig.rows[i].id))
    && (orig.nsType.Some? ==> forall i :: 0 <= i < |orig.rows| ==> CellsFit(orig.nsType.value, orig.rows[i].ns))
    && KeysHold(orig)
  }

  /** One that any number of adapters can migrate at once: also its keys hold, and its rows differ, when
      the trailing spaces of text are ignored. */
  ghost predicate Accepted(orig: Table, nsBytes: nat) {
    Legacy(orig, nsBytes) && !Clashes(orig) && !Duplicates(orig)
  }

  // ----- The invariant of interleaved migrations -----

  /** A key column keeps its character width while it goes from text to UTF-8 text to bytes. */
  ghost predicate TypeOk(o: ColType, t: ColType) {
    t == o || (o.Text? && (t == Text(Utf8mb4, o.width) || t == Binary(o.width * BYTES_PER_CODE_POINT)))
  }

  ghost predicate TypesOk(orig: Table, t: Table) {
    && TypeOk(orig.idType, t.idType)
    && (if orig.nsType.Some? then t.nsType.Some? && TypeOk(orig.nsType.value, t.nsType.value)
        else t.nsType.Some? ==> t.nsType.value.Binary?)
    && CheckWidths(t, 0) == None
    && (t.primaryKey ==> orig.primaryKey)
    && (t.index == orig.index || t.index == Some(TARGET_INDEX))
    && (t.expiresIndex ==> t.expires)
  }

  ghost predicate RowsOk(orig: Table, t: Table) {
    && |t.rows| == |orig.rows|
    && (forall i :: 0 <= i < |t.rows| ==>
          t.rows[i].id.text == orig.rows[i].id.text && CellsFit(t.idType, t.rows[i].id))
    && (forall i :: 0 <= i < |t.rows| && orig.idType.Text? ==> |t.rows[i].id.text| <= orig.idType.width)
    && (forall i :: 0 <= i < |t.rows| && orig.nsType.Some? && orig.nsType.value.Text? ==>
          |OldNamespace(orig, i)| <= orig.nsType.value.width)
    && (t.nsType.Some? ==>
          forall i :: 0 <= i < |t.rows| ==>
            t.rows[i].ns.text == OldNamespace(orig, i) && CellsFit(t.nsType.value, t.rows[i].ns))
  }

  function Stage(pc: Pc): nat {
    match pc
    case Create => 0 case Show => 1 case AddColumn => 2 case ShowAgain => 3
    case ToText(_, _) => 4 case ToBinary(_, _) => 5 case DropKey => 6 case ShowIndex => 7
    case FixIndex(_) => 8 case AddExpiry => 9 case IndexExpiry => 10 case Done => 11 case Failed(_) => 12
  }

  predicate NotLegacyText(t: ColType) { t.Text? ==> t.charset == Utf8mb4 }

  ghost predicate WidthsRead(orig: Table, id: Option<nat>, ns: Option<nat>) {
    && (id.Some? ==> orig.idType.Text? && id.value == orig.idType.width)
    && (ns.Some? ==> orig.nsType.Some? && orig.nsType.value.Text? && ns.value == orig.nsType.value.width)
  }

  /** What has become of the table when an adapter has come to `pc`. */
  ghost predicate Reached(orig: Table, t: Table, pc: Pc) {
    && !pc.Failed?
    && (Stage(pc) >= 3 ==> t.nsType.Some?)
    && (pc.ToText? ==> WidthsRead(orig, pc.idWidth, pc.nsWidth))
    && (pc.ToBinary? ==>
          && WidthsRead(orig, pc.idWidth, pc.nsWidth)
          && (pc.idWidth.Some? ==> NotLegacyText(t.idType))
          && (pc.nsWidth.Some? ==> NotLegacyText(t.nsType.value)))
    && (Stage(pc) >= 7 ==> !t.primaryKey)
    && (pc.FixIndex? ==> pc.present == orig.index.Some? && orig.index != Some(TARGET_INDEX))
    && (Stage(pc) >= 9 ==> t.index == Some(TARGET_INDEX))
    && (Stage(pc) >= 10 ==> t.expires)
    && (Stage(pc) >= 11 ==> t.expiresIndex)
  }

  /** The adapter will still turn the column into bytes. */
  ghost predicate IdPending(pc: Pc) {
    Stage(pc) <= 3 || ((pc.ToText? || pc.ToBinary?) && pc.idWidth.Some?)
  }

  ghost predicate NsPending(pc: Pc) {
    Stage(pc) <= 3 || ((pc.ToText? || pc.ToBinary?) && pc.nsWidth.Some?)
  }

  ghost predicate Inv(orig: Table, w: World) {
    && w.db.Some? && TypesOk(orig, w.db.value) && RowsOk(orig, w.db.value)
    && (forall k :: 0 <= k < |w.procs| ==> Accepted(orig, w.procs[k].nsBytes))
    && (forall k :: 0 <= k < |w.procs| ==> Reached(orig, w.db.value, w.procs[k].pc))
    && (!w.db.value.idType.Binary? ==> exists k :: 0 <= k < |w.procs| && IdPending(w.procs[k].pc))
    && (w.db.value.nsType.Some? && !w.db.value.nsType.value.Binary? ==>
          exists k :: 0 <= k < |w.procs| && NsPending(w.procs[k].pc))
  }

  lemma ColumnWithin(t: ColType)
    requires KnownCharset(t) && !t.Unsized?
    ensures ColumnBytes(t) <= TargetBytes(t).value
  {
    if t.Text? { assert t.width * MaxBytes(t.charset) <= t.width * 4; }
  }

  /** No column change can outgrow the index. */
  lemma IndexWithin(t: Table)
    requires CheckWidths(t, 0) == None && KnownCharset(t.idType) && (t.nsType.Some? ==> KnownCharset(t.nsType.value))
    ensures IndexBytes(t) <= MAX_INDEX_BYTES
  {
    ColumnWithin(t.idType);
    if t.nsType.Some? { ColumnWithin(t.nsType.value); }
  }

  // ----- Every statement keeps the table sound and does its part -----

  ghost predicate Sound(orig: Table, t: Table) { TypesOk(orig, t) && RowsOk(orig, t) }

  /** The effect of one statement on the table, whoever sends it. */
  ghost predicate Effect(orig: Table, t: Table, u: Table) {
    && Sound(orig, u)
    && (t.nsType.Some? ==> u.nsType.Some?)
    && (!t.primaryKey ==> !u.primaryKey) && (t.expires ==> u.expires) && (t.expiresIndex ==> u.expiresIndex)
    && (t.index == Some(TARGET_INDEX) ==> u.index == Some(TARGET_INDEX))
    && (NotLegacyText(t.idType) ==> NotLegacyText(u.idType))
    && (t.nsType.Some? && NotLegacyText(t.nsType.value) ==> NotLegacyText(u.nsType.value))
  }

  lemma AddColumnStep(orig: Table, t: Table, p: Proc)
    requires Legacy(orig, p.nsBytes) && Sound(orig, t) && p.pc == AddColumn
    ensures Step(p, t).pc == ShowAgain && Effect(orig, t, Step(p, t).table) && Step(p, t).table.nsType.Some?
    ensures Step(p, t).table.idType == t.idType && (t.nsType.Some? ==> Step(p, t).table.nsType == t.nsType)
  {
    if t.nsType.None? {
      IndexWithin(t.(nsType := Some(Binary(p.nsBytes))));
    }
  }

  /** Rows that a key takes for one now were taken for one in the original table. */
  lemma SameBefore(orig: Table, t: Table, i: nat, j: nat)
    requires Sound(orig, t) && i < j < |t.rows|
    ensures SameId(t, i, j) ==> SameId(orig, i, j)
    ensures t.nsType.Some? && SameNamespace(t, i, j) ==> SameNamespace(orig, i, j)
  {}

  lemma UniqueAsBefore(orig: Table, t: Table)
    requires Sound(orig, t)
    ensures !Duplicates(orig) && t.nsType.Some? ==> !Duplicates(t)
    ensures !Clashes(orig) && (t.index == orig.index || !Duplicates(orig)) && t.nsType.Some? ==> !Clashes(t)
  {
    hide Sound, SameId, SameNamespace;
    assert |t.rows| == |orig.rows| && TypesOk(orig, t) by { SoundMeans(orig, t); }
    forall i, j | 0 <= i < j < |t.rows| && t.nsType.Some?
      ensures SameKey(t, TARGET_INDEX.columns, i, j) ==> SameKey(orig, TARGET_INDEX.columns, i, j)
      ensures ClashAt(t, i, j) ==> ClashAt(orig, i, j) || (t.index != orig.index && SameKey(orig, TARGET_INDEX.columns, i, j))
    {
      SameBefore(orig, t, i, j);
    }
  }

  lemma SoundMeans(orig: Table, t: Table)
    requires Sound(orig, t)
    ensures |t.rows| == |orig.rows| && TypesOk(orig, t)
  {}

  /** The statement meets no rows that break a key. */
  ghost predicate Unhindered(t: Table, pc: Pc) {
    match pc
    case ToText(id, ns) => t.nsType.Some? ==> !Clashes(TextTable(t, id, ns))
    case ToBinary(id, ns) => !Clashes(BinaryTable(t, Scaled(id), Scaled(ns)))
    case FixIndex(_) => !Duplicates(t)
    case _ => true
  }

  lemma ToTextSound(orig: Table, t: Table, id: Option<nat>, ns: Option<nat>, nsBytes: nat)
    requires Legacy(orig, nsBytes) && Sound(orig, t) && WidthsRead(orig, id, ns) && t.nsType.Some?
    ensures AllTextFits(t, id, ns) && Effect(orig, t, TextTable(t, id, ns))
  {
    var u := TextTable(t, id, ns);
    assert TypesOk(orig, u);
    assert RowsOk(orig, u);
  }

  lemma ToTextStep(orig: Table, t: Table, p: Proc)
    requires Legacy(orig, p.nsBytes) && Sound(orig, t) && p.pc.ToText? && Reached(orig, t, p.pc) && Unhindered(t, p.pc)
    ensures Step(p, t) == Outcome(ToBinary(p.pc.idWidth, p.pc.nsWidth), TextTable(t, p.pc.idWidth, p.pc.nsWidth))
    ensures Effect(orig, t, Step(p, t).table)
  {
    ToTextSound(orig, t, p.pc.idWidth, p.pc.nsWidth, p.nsBytes);
    IndexWithin(TextTable(t, p.pc.idWidth, p.pc.nsWidth));
  }

  lemma ToBinarySound(orig: Table, t: Table, id: Option<nat>, ns: Option<nat>, nsBytes: nat)
    requires Legacy(orig, nsBytes) && Sound(orig, t) && WidthsRead(orig, id, ns) && t.nsType.Some?
    requires id.Some? ==> NotLegacyText(t.idType)
    requires ns.Some? ==> NotLegacyText(t.nsType.value)
    ensures AllBytesFit(t, Scaled(id), Scaled(ns)) && Effect(orig, t, BinaryTable(t, Scaled(id), Scaled(ns)))
  {
    var u := BinaryTable(t, Scaled(id), Scaled(ns));
    forall i | 0 <= i < |t.rows| ensures id.Some? ==> Utf8Length(t.rows[i].id.text) <= Scaled(id).value {
      Utf8LengthBound(t.rows[i].id.text);
    }
    forall i | 0 <= i < |t.rows| ensures ns.Some? ==> Utf8Length(t.rows[i].ns.text) <= Scaled(ns).value {
      Utf8LengthBound(t.rows[i].ns.text);
    }
    assert TypesOk(orig, u);
    assert RowsOk(orig, u);
  }

  lemma ToBinaryStep(orig: Table, t: Table, p: Proc)
    requires Legacy(orig, p.nsBytes) && Sound(orig, t) && p.pc.ToBinary? && Reached(orig, t, p.pc) && Unhindered(t, p.pc)
    ensures Step(p, t) == Outcome(DropKey, BinaryTable(t, Scaled(p.pc.idWidth), Scaled(p.pc.nsWidth)))
    ensures Effect(orig, t, Step(p, t).table)
  {
    ToBinarySound(orig, t, p.pc.idWidth, p.pc.nsWidth, p.nsBytes);
    IndexWithin(BinaryTable(t, Scaled(p.pc.idWidth), Scaled(p.pc.nsWidth)));
  }

  lemma IndexStep(orig: Table, t: Table, p: Proc)
    requires Legacy(orig, p.nsBytes) && Sound(orig, t) && Reached(orig, t, p.pc) && (p.pc.ShowIndex? || p.pc.FixIndex?) && Unhindered(t, p.pc)
    ensures Effect(orig, t, Step(p, t).table) && Reached(orig, Step(p, t).table, Step(p, t).pc)
    ensures Step(p, t).table.idType == t.idType && Step(p, t).table.nsType == t.nsType
  {
    IndexWithin(t);
  }

  lemma OtherStep(orig: Table, t: Table, p: Proc)
    requires Legacy(orig, p.nsBytes) && Sound(orig, t) && Reached(orig, t, p.pc)
    requires p.pc.Show? || p.pc.ShowAgain? || p.pc.DropKey? || p.pc.AddExpiry? || p.pc.IndexExpiry? || p.pc.Done?
    ensures Effect(orig, t, Step(p, t).table) && Reached(orig, Step(p, t).table, Step(p, t).pc)
    ensures Step(p, t).table.idType == t.idType && Step(p, t).table.nsType == t.nsType
  {}

  // ----- The world -----

  lemma ReachedStays(orig: Table, t: Table, u: Table, pc: Pc)
    requires Reached(orig, t, pc) && Effect(orig, t, u)
    ensures Reached(orig, u, pc)
  {}

  lemma StepEffect(orig: Table, t: Table, p: Proc)
    requires Legacy(orig, p.nsBytes) && Sound(orig, t) && Reached(orig, t, p.pc) && p.pc != Create && Unhindered(t, p.pc)
    ensures Effect(orig, t, Step(p, t).table) && Reached(orig, Step(p, t).table, Step(p, t).pc)
    ensures IdPending(p.pc) && !Step(p, t).table.idType.Binary? ==> IdPending(Step(p, t).pc)
    ensures t.idType.Binary? && !Step(p, t).table.idType.Binary? ==> IdPending(Step(p, t).pc)
    ensures var u := Step(p, t).table; NsPending(p.pc) && u.nsType.Some? && !u.nsType.value.Binary? ==> NsPending(Step(p, t).pc)
    ensures var u := Step(p, t).table;
            (t.nsType.Some? ==> t.nsType.value.Binary?) && u.nsType.Some? && !u.nsType.value.Binary? ==> NsPending(Step(p, t).pc)
  {
    match p.pc
    case AddColumn => AddColumnStep(orig, t, p);
    case ToText(_, _) => ToTextStep(orig, t, p);
    case ToBinary(_, _) => ToBinaryStep(orig, t, p);
    case ShowIndex => IndexStep(orig, t, p);
    case FixIndex(_) => IndexStep(orig, t, p);
    case _ => OtherStep(orig, t, p);
  }

  lemma NothingHinders(orig: Table, t: Table, p: Proc)
    requires Accepted(orig, p.nsBytes) && Sound(orig, t) && Reached(orig, t, p.pc)
    ensures Unhindered(t, p.pc)
  {
    match p.pc
    case ToText(id, ns) =>
      ToTextSound(orig, t, id, ns, p.nsBytes);
      UniqueAsBefore(orig, TextTable(t, id, ns));
    case ToBinary(id, ns) =>
      ToBinarySound(orig, t, id, ns, p.nsBytes);
      UniqueAsBefore(orig, BinaryTable(t, Scaled(id), Scaled(ns)));
    case FixIndex(_) => UniqueAsBefore(orig, t);
    case _ =>
  }

  lemma MoveInv(orig: Table, w: World, k: nat)
    requires Inv(orig, w) && k < |w.procs|
    ensures Inv(orig, Move(w, k))
  {
    hide Legacy, Clashes, Duplicates, TypesOk, RowsOk, Unhindered, Step;
    var p, t, v := w.procs[k], w.db.value, Move(w, k);
    if p.pc == Create {
      assert v.procs[k].pc == Show;
      forall j | 0 <= j < |w.procs| && IdPending(w.procs[j].pc) ensures IdPending(v.procs[j].pc) {}
      forall j | 0 <= j < |w.procs| && NsPending(w.procs[j].pc) ensures NsPending(v.procs[j].pc) {}
    } else {
      NothingHinders(orig, t, p);
      StepEffect(orig, t, p);
      var u := v.db.value;
      forall j | 0 <= j < |v.procs| ensures Reached(orig, u, v.procs[j].pc) {
        if j != k { ReachedStays(orig, t, u, w.procs[j].pc); }
      }
      if !u.idType.Binary? {
        if t.idType.Binary? { assert IdPending(v.procs[k].pc); }
        else { var j :| 0 <= j < |w.procs| && IdPending(w.procs[j].pc); assert IdPending(v.procs[j].pc); }
      }
      if u.nsType.Some? && !u.nsType.value.Binary? {
        if t.nsType.Some? ==> t.nsType.value.Binary? { assert NsPending(v.procs[k].pc); }
        else { var j :| 0 <= j < |w.procs| && NsPending(w.procs[j].pc); assert NsPending(v.procs[j].pc); }
      }
    }
  }

  lemma {:induction false} RunInv(orig: Table, w: World, ks: seq<nat>)
    requires Inv(orig, w) && Schedule(|w.procs|, ks)
    ensures Inv(orig, Run(w, ks))
    decreases |ks|
  {
    if ks != [] {
      MoveInv(orig, w, ks[0]);
      RunInv(orig, Move(w, ks[0]), ks[1..]);
    }
  }

  // ----- The theorems -----

  ghost predicate Starting(w: World) {
    |w.procs| > 0 && forall k :: 0 <= k < |w.procs| ==> w.procs[k].pc == Create
  }

  /** However many adapters initialize an accepted legacy table at once, and however their statements
      interleave, none of them fails, and when all are done the table has the target schema and every
      row its id and namespace. */
  lemma MigrationsConverge(orig: Table, w: World, ks: seq<nat>)
    requires w.db == Some(orig) && Starting(w) && Schedule(|w.procs|, ks)
    requires forall k :: 0 <= k < |w.procs| ==> Accepted(orig, w.procs[k].nsBytes)
    ensures var v := Run(w, ks);
            && v.db.Some? && (forall k :: 0 <= k < |v.procs| ==> !v.procs[k].pc.Failed?)
            && KeptRows(orig, v.db.value)
            && CheckWidths(v.db.value, 0) == None
            && ((forall k :: 0 <= k < |v.procs| ==> v.procs[k].pc.Done?) ==> Target(v.db.value))
  {
    hide Accepted, TypesOk, RowsOk, KeptRows;
    StartInv(orig, w);
    RunInv(orig, w, ks);
    var v := Run(w, ks);
    SoundKeeps(orig, v.db.value);
    assert Reached(orig, v.db.value, v.procs[0].pc);
  }

  lemma StartInv(orig: Table, w: World)
    requires w.db == Some(orig) && Starting(w) && forall k :: 0 <= k < |w.procs| ==> Accepted(orig, w.procs[k].nsBytes)
    ensures Inv(orig, w)
  {
    hide RowsOk;
    assert IdPending(w.procs[0].pc) && NsPending(w.procs[0].pc);
    LegacyIsSound(orig, w.procs[0].nsBytes);
  }

  lemma SoundKeeps(orig: Table, t: Table)
    requires TypesOk(orig, t) && RowsOk(orig, t)
    ensures KeptRows(orig, t) && CheckWidths(t, 0) == None
    ensures orig.idType.Binary? ==> t.idType == orig.idType
    ensures orig.nsType.Some? && orig.nsType.value.Binary? ==> t.nsType == orig.nsType
  {}

  /** The first statement of the schedule creates a missing table with the target schema and the widths of the
      adapter that sends it, and no later one changes them. */
  lemma MigrationsCreate(w: World, ks: seq<nat>)
    requires w.db == None && Starting(w) && Schedule(|w.procs|, ks) && ks != []
    requires forall k :: 0 <= k < |w.procs| ==> w.procs[k].keyBytes + w.procs[k].nsBytes <= MAX_INDEX_BYTES
    ensures var v := Run(w, ks);
            && v.db.Some? && v.db.value.rows == [] && (forall k :: 0 <= k < |v.procs| ==> !v.procs[k].pc.Failed?)
            && ((forall k :: 0 <= k < |v.procs| ==> v.procs[k].pc.Done?) ==> Target(v.db.value))
    ensures Run(w, ks).db.value.idType == Binary(w.procs[ks[0]].keyBytes)
    ensures Run(w, ks).db.value.nsType == Some(Binary(w.procs[ks[0]].nsBytes))
  {
    hide Accepted, TypesOk, RowsOk, Move;
    CreatedInv(w, ks[0]);
    var u := Move(w, ks[0]);
    var orig := u.db.value;
    RunInv(orig, u, ks[1..]);
    var v := Run(w, ks);
    SoundKeeps(orig, v.db.value);
    assert Reached(orig, v.db.value, v.procs[0].pc);
  }

  lemma CreatedInv(w: World, k: nat)
    requires w.db == None && Starting(w) && k < |w.procs|
    requires forall k :: 0 <= k < |w.procs| ==> w.procs[k].keyBytes + w.procs[k].nsBytes <= MAX_INDEX_BYTES
    ensures var u := Move(w, k); u.db.Some? && u.db.value.rows == [] && Inv(u.db.value, u)
    ensures Move(w, k).db.value.idType == Binary(w.procs[k].keyBytes)
    ensures Move(w, k).db.value.nsType == Some(Binary(w.procs[k].nsBytes))
  {
    var u := Move(w, k);
    assert IdPending(u.procs[0].pc) && NsPending(u.procs[0].pc);
    assert Accepted(u.db.value, 0);
  }

  /** How often an adapter gets a turn. */
  function Turns(ks: seq<nat>, k: nat): nat {
    if ks == [] then 0 else (if ks[0] == k then 1 else 0) + Turns(ks[1..], k)
  }

  lemma StageGrows(t: Table, p: Proc)
    requires p.pc != Create && p.pc != Done && !Step(p, t).pc.Failed?
    ensures Stage(Step(p, t).pc) > Stage(p.pc)
  {}

  lemma MoveGrows(orig: Table, w: World, k: nat)
    requires Inv(orig, w) && k < |w.procs|
    ensures Inv(orig, Move(w, k))
    ensures Stage(Move(w, k).procs[k].pc) >= (if Stage(w.procs[k].pc) < 11 then Stage(w.procs[k].pc) + 1 else 11)
    ensures forall j :: 0 <= j < |w.procs| && j != k ==> Move(w, k).procs[j] == w.procs[j]
  {
    MoveInv(orig, w, k);
    var p := w.procs[k];
    assert Reached(orig, Move(w, k).db.value, Move(w, k).procs[k].pc) && Reached(orig, w.db.value, p.pc);
    if p.pc != Create && p.pc != Done { StageGrows(w.db.value, p); }
  }

  lemma {:induction false} TurnsAdvance(orig: Table, w: World, ks: seq<nat>, k: nat)
    requires Inv(orig, w) && Schedule(|w.procs|, ks) && k < |w.procs|
    ensures var s := Stage(w.procs[k].pc) + Turns(ks, k);
            Stage(Run(w, ks).procs[k].pc) >= (if s < 11 then s else 11)
    decreases |ks|
  {
    if ks != [] {
      MoveGrows(orig, w, ks[0]);
      TurnsAdvance(orig, Move(w, ks[0]), ks[1..], k);
    }
  }

  /** An adapter that gets eleven turns is done, whatever the others do in between; once all have had theirs
      the table has the target schema and every row its id and namespace. */
  lemma MigrationsFinish(orig: Table, w: World, ks: seq<nat>)
    requires w.db == Some(orig) && Starting(w) && Schedule(|w.procs|, ks)
    requires forall k :: 0 <= k < |w.procs| ==> Accepted(orig, w.procs[k].nsBytes)
    ensures var v := Run(w, ks);
            && |v.procs| == |w.procs|
            && (forall k :: 0 <= k < |w.procs| && Turns(ks, k) >= 11 ==> v.procs[k].pc.Done?)
            && ((forall k :: 0 <= k < |w.procs| ==> Turns(ks, k) >= 11) ==>
                  v.db.Some? && Target(v.db.value) && KeptRows(orig, v.db.value))
  {
    hide Accepted, Inv, KeptRows, CheckWidths, Target;
    MigrationsConverge(orig, w, ks);
    StartInv(orig, w);
    var v := Run(w, ks);
    forall k | 0 <= k < |w.procs| && Turns(ks, k) >= 11 ensures v.procs[k].pc.Done? {
      TurnsAdvance(orig, w, ks, k);
    }
  }

  // ----- The widths that come out -----

  /** A namespace column the original table had not was added by one of the adapters. */
  ghost predicate AddedByOne(orig: Table, w: World) {
    orig.nsType.None? && w.db.Some? && w.db.value.nsType.Some? ==>
      exists k :: 0 <= k < |w.procs| && w.db.value.nsType == Some(Binary(w.procs[k].nsBytes))
  }

  lemma StepAddsOwn(orig: Table, t: Table, p: Proc)
    requires Accepted(orig, p.nsBytes) && Sound(orig, t) && Reached(orig, t, p.pc) && p.pc != Create && orig.nsType.None?
    ensures Step(p, t).table.nsType == t.nsType || (t.nsType.None? && Step(p, t).table.nsType == Some(Binary(p.nsBytes)))
  {
    hide RowsOk, Clashes, Duplicates, KeysHold, CheckWidths;
  }

  lemma {:induction false} RunAddsOwn(orig: Table, w: World, ks: seq<nat>)
    requires Inv(orig, w) && AddedByOne(orig, w) && Schedule(|w.procs|, ks)
    ensures AddedByOne(orig, Run(w, ks))
    ensures forall k :: 0 <= k < |w.procs| ==> Run(w, ks).procs[k].nsBytes == w.procs[k].nsBytes
    decreases |ks|
  {
    if ks != [] {
      MoveAddsOwn(orig, w, ks[0]);
      MoveInv(orig, w, ks[0]);
      hide Inv, AddedByOne, Move;
      RunAddsOwn(orig, Move(w, ks[0]), ks[1..]);
    }
  }

  lemma MoveAddsOwn(orig: Table, w: World, k: nat)
    requires Inv(orig, w) && AddedByOne(orig, w) && k < |w.procs|
    ensures AddedByOne(orig, Move(w, k))
    ensures forall j :: 0 <= j < |w.procs| ==> Move(w, k).procs[j].nsBytes == w.procs[j].nsBytes
  {
    hide TypesOk, RowsOk, Accepted, Reached, Step;
    var p, t, v := w.procs[k], w.db.value, Move(w, k);
    if orig.nsType.None? && v.db.value.nsType.Some? {
      if p.pc != Create { StepAddsOwn(orig, t, p); }
      if t.nsType.Some? {
        var j :| 0 <= j < |w.procs| && t.nsType == Some(Binary(w.procs[j].nsBytes));
        if p.pc == Create || v.db.value.nsType == t.nsType {
          assert v.db.value.nsType == Some(Binary(v.procs[j].nsBytes));
        }
      } else {
        assert v.db.value.nsType == Some(Binary(v.procs[k].nsBytes));
      }
    }
  }

  /** The bytes of a migrated column: four for each character of a text column, as many as before otherwise. */
  ghost predicate WidthKept(before: ColType, after: ColType) {
    match before
    case Text(_, width) => after == Binary(4 * width)
    case Binary(width) => after == Binary(width)
    case Unsized => false
  }

  /** When all adapters have had eleven turns, an old column has the bytes its characters may need, and a new
      namespace column those one of the adapters asked for. */
  lemma MigratedWidths(orig: Table, w: World, ks: seq<nat>)
    requires w.db == Some(orig) && Starting(w) && Schedule(|w.procs|, ks)
    requires forall k :: 0 <= k < |w.procs| ==> Accepted(orig, w.procs[k].nsBytes)
    requires forall k :: 0 <= k < |w.procs| ==> Turns(ks, k) >= 11
    ensures var v := Run(w, ks);
            && v.db.Some? && WidthKept(orig.idType, v.db.value.idType) && v.db.value.nsType.Some?
            && (orig.nsType.Some? ==> WidthKept(orig.nsType.value, v.db.value.nsType.value))
            && (orig.nsType.None? ==>
                  exists k :: 0 <= k < |w.procs| && v.db.value.nsType == Some(Binary(w.procs[k].nsBytes)))
  {
    hide Accepted, TypesOk, RowsOk, KeptRows;
    MigrationsFinish(orig, w, ks);
    StartInv(orig, w);
    RunInv(orig, w, ks);
    RunAddsOwn(orig, w, ks);
    var v := Run(w, ks);
    BytesAre(orig, v.db.value, w.procs[0].nsBytes);
    if orig.nsType.None? {
      var k :| 0 <= k < |v.procs| && v.db.value.nsType == Some(Binary(v.procs[k].nsBytes));
      assert v.db.value.nsType == Some(Binary(w.procs[k].nsBytes));
    }
  }

  lemma BytesAre(orig: Table, t: Table, nsBytes: nat)
    requires TypesOk(orig, t) && Accepted(orig, nsBytes) && t.idType.Binary? && t.nsType.Some? && t.nsType.value.Binary?
    ensures WidthKept(orig.idType, t.idType)
    ensures orig.nsType.Some? ==> WidthKept(orig.nsType.value, t.nsType.value)
  {
    hide RowsDiffer, KeysHold, Clashes, Duplicates;
  }

  /** Every key of `keyLength` characters fits a column of four times as many bytes, encoded as UTF-8. */
  lemma {:induction false} KeysFit(s: string, keyLength: nat)
    requires |s| <= keyLength
    ensures Utf8Length(s) == |Utf8.Encode(s)| <= 4 * keyLength
    ensures CellsFit(Binary(4 * keyLength), Cell(Utf8mb4, s))
  {
    if s != "" { KeysFit(s[1..], |s| - 1); }
  }

  /** The widths an adapter goes on with: known, and within 3072 bytes when text is widened. */
  lemma WidthsFit(t: Table, nsBytes: nat, idBytes: nat, namespaceBytes: nat)
    requires t.idType.Unsized? || WidthKept(t.idType, Binary(idBytes))
    requires t.nsType.Some? ==> t.nsType.value.Unsized? || WidthKept(t.nsType.value, Binary(namespaceBytes))
    requires t.nsType.None? ==> namespaceBytes == nsBytes
    ensures CheckWidths(t, nsBytes) == None <==>
            !t.idType.Unsized? && t.nsType != Some(Unsized) && idBytes + namespaceBytes <= 3072
  {}

  // ----- Resizing the key columns -----

  /** `MAX(CHAR_LENGTH(...))` of the two columns. */
  function LongestId(rows: seq<Row>): nat {
    if rows == [] then 0 else Max(LongestId(rows[..|rows| - 1]), |rows[|rows| - 1].id.text|)
  }

  function LongestNamespace(rows: seq<Row>): nat {
    if rows == [] then 0 else Max(LongestNamespace(rows[..|rows| - 1]), |rows[|rows| - 1].ns.text|)
  }

  function Max(a: nat, b: nat): nat { if a < b then b else a }

  /** The two statements of `resizeKeyColumns`: the scan of the stored lengths, and the change of both columns. */
  function ResizeColumns(t: Table, keyLength: nat, namespaceLength: nat): Answer {
    if LongestId(t.rows) > keyLength || LongestNamespace(t.rows) > namespaceLength then Err(TooLong)
    else Checked(t.(idType := Binary(keyLength * BYTES_PER_CODE_POINT), nsType := Some(Binary(namespaceLength * BYTES_PER_CODE_POINT))))
  }

  lemma {:induction false} LongestAre(rows: seq<Row>, k: nat, n: nat)
    ensures LongestId(rows) <= k <==> forall i :: 0 <= i < |rows| ==> |rows[i].id.text| <= k
    ensures LongestNamespace(rows) <= n <==> forall i :: 0 <= i < |rows| ==> |rows[i].ns.text| <= n
  {
    if rows != [] { LongestAre(rows[..|rows| - 1], k, n); }
  }

  /** Two lengths that fit the index are refused exactly when a stored key or namespace has more characters; else
      the columns have four bytes for each, every row is as it was, and fits. */
  lemma ResizeExactly(t: Table, keyLength: nat, namespaceLength: nat)
    requires 4 * (keyLength + namespaceLength) <= 3072
    requires forall i :: 0 <= i < |t.rows| ==> t.rows[i].id.charset == Utf8mb4 && t.rows[i].ns.charset == Utf8mb4
    ensures var a := ResizeColumns(t, keyLength, namespaceLength);
            && (a.Err? <==> exists i :: 0 <= i < |t.rows| && (|t.rows[i].id.text| > keyLength || |t.rows[i].ns.text| > namespaceLength))
            && (a.Ok? ==>
                  && a.table == t.(idType := Binary(4 * keyLength), nsType := Some(Binary(4 * namespaceLength)))
                  && forall i :: 0 <= i < |t.rows| ==>
                       CellsFit(a.table.idType, a.table.rows[i].id) && CellsFit(a.table.nsType.value, a.table.rows[i].ns))
  {
    LongestAre(t.rows, keyLength, namespaceLength);
    if ResizeColumns(t, keyLength, namespaceLength).Ok? {
      forall i | 0 <= i < |t.rows|
        ensures CellsFit(Binary(4 * keyLength), t.rows[i].id) && CellsFit(Binary(4 * namespaceLength), t.rows[i].ns)
      {
        KeysFit(t.rows[i].id.text, keyLength);
        KeysFit(t.rows[i].ns.text, namespaceLength);
      }
    }
  }

  ghost predicate Idle(pc: Pc) {
    pc.Create? || pc.Show? || pc.ShowAgain? || pc.DropKey? || pc.ShowIndex? || pc.AddExpiry? || pc.IndexExpiry? || pc.Done?
  }

  /** On a table that already has the target schema every further run changes nothing. */
  lemma {:induction false} SecondRunChangesNothing(t: Table, w: World, ks: seq<nat>)
    requires Target(t) && w.db == Some(t) && Schedule(|w.procs|, ks)
    requires forall k :: 0 <= k < |w.procs| ==> Idle(w.procs[k].pc)
    requires CheckWidths(t, 0) == None
    ensures Run(w, ks).db == Some(t)
    ensures forall k :: 0 <= k < |w.procs| ==> Idle(Run(w, ks).procs[k].pc)
    decreases |ks|
  {
    if ks != [] { SecondRunChangesNothing(t, Move(w, ks[0]), ks[1..]); }
  }

  /** After adapters have migrated an accepted legacy table, any number of further ones that initialize it
      find nothing to do: the table stays as it is and none of them fails. */
  lemma MigrationsAreIdempotent(orig: Table, w: World, ks: seq<nat>, again: World, js: seq<nat>)
    requires w.db == Some(orig) && Starting(w) && Schedule(|w.procs|, ks)
    requires forall k :: 0 <= k < |w.procs| ==> Accepted(orig, w.procs[k].nsBytes)
    requires forall k :: 0 <= k < |Run(w, ks).procs| ==> Run(w, ks).procs[k].pc.Done?
    requires again.db == Run(w, ks).db && Starting(again) && Schedule(|again.procs|, js)
    ensures Run(again, js).db == again.db
    ensures forall k :: 0 <= k < |again.procs| ==> !Run(again, js).procs[k].pc.Failed?
  {
    MigrationsConverge(orig, w, ks);
    SecondRunChangesNothing(again.db.value, again, js);
  }

  // ----- Exactly which legacy tables can be migrated -----

  ghost predicate AllBytes(t: Table) { t.idType.Binary? && (t.nsType.Some? ==> t.nsType.value.Binary?) }

  /** The key columns are compared as those of the original table. */
  ghost predicate SameKinds(orig: Table, t: Table) {
    && (t.idType.Text? <==> orig.idType.Text?)
    && t.nsType.Some? && (t.nsType.value.Text? <==> (orig.nsType.Some? && orig.nsType.value.Text?))
  }

  lemma SameKindsSameKeys(orig: Table, t: Table)
    requires Sound(orig, t) && SameKinds(orig, t)
    ensures Duplicates(t) <==> Duplicates(orig)
    ensures t.primaryKey == orig.primaryKey && t.index == orig.index ==> (Clashes(t) <==> Clashes(orig))
  {
    hide CellsFit, CheckWidths, WithoutTrailingSpaces, KnownCharset;
    forall i, j | 0 <= i < j < |t.rows|
      ensures SameId(t, i, j) <==> SameId(orig, i, j)
      ensures SameNamespace(t, i, j) <==> SameNamespace(orig, i, j)
    {
      assert t.rows[i].id.text == orig.rows[i].id.text && t.rows[j].id.text == orig.rows[j].id.text;
      assert t.rows[i].ns.text == OldNamespace(orig, i) && t.rows[j].ns.text == OldNamespace(orig, j);
    }
    SameComparisonsSameKeys(orig, t);
  }

  lemma SameComparisonsSameKeys(orig: Table, t: Table)
    requires |t.rows| == |orig.rows|
    requires forall i, j :: 0 <= i < j < |t.rows| ==> (SameId(t, i, j) <==> SameId(orig, i, j))
    requires forall i, j :: 0 <= i < j < |t.rows| ==> (SameNamespace(t, i, j) <==> SameNamespace(orig, i, j))
    ensures Duplicates(t) <==> Duplicates(orig)
    ensures t.primaryKey == orig.primaryKey && t.index == orig.index ==> (Clashes(t) <==> Clashes(orig))
  {
    hide SameId, SameNamespace;
    assert forall i, j :: 0 <= i < j < |t.rows| ==>
      (SameKey(t, TARGET_INDEX.columns, i, j) <==> SameKey(orig, TARGET_INDEX.columns, i, j));
    if t.primaryKey == orig.primaryKey && t.index == orig.index {
      assert forall i, j :: 0 <= i < j < |t.rows| ==> (ClashAt(t, i, j) <==> ClashAt(orig, i, j));
    }
  }

  /** Bytes are compared exactly. */
  lemma BytesClashNever(orig: Table, t: Table)
    requires KeysHold(orig) && Sound(orig, t) && AllBytes(t) && (t.nsType.Some? || orig.nsType.None?)
    ensures t.index == orig.index ==> !Clashes(t)
    ensures t.nsType.Some? ==> (Duplicates(t) <==> !RowsDiffer(orig))
  {
    hide CellsFit, CheckWidths, WithoutTrailingSpaces, KnownCharset;
    forall i, j | 0 <= i < j < |t.rows|
      ensures SameId(t, i, j) <==> orig.rows[i].id.text == orig.rows[j].id.text
      ensures SameNamespace(t, i, j) <==> OldNamespace(orig, i) == OldNamespace(orig, j)
    {
      assert t.rows[i].id.text == orig.rows[i].id.text && t.rows[j].id.text == orig.rows[j].id.text;
      if t.nsType.Some? {
        assert t.rows[i].ns.text == OldNamespace(orig, i) && t.rows[j].ns.text == OldNamespace(orig, j);
      }
    }
    assert t.primaryKey ==> orig.primaryKey;
    ExactComparisons(orig, t);
  }

  lemma ExactComparisons(orig: Table, t: Table)
    requires KeysHold(orig) && |t.rows| == |orig.rows| && (t.primaryKey ==> orig.primaryKey)
    requires forall i, j :: 0 <= i < j < |t.rows| ==> (SameId(t, i, j) <==> orig.rows[i].id.text == orig.rows[j].id.text)
    requires forall i, j :: 0 <= i < j < |t.rows| ==> (SameNamespace(t, i, j) <==> OldNamespace(orig, i) == OldNamespace(orig, j))
    ensures t.index == orig.index ==> !Clashes(t)
    ensures Duplicates(t) <==> !RowsDiffer(orig)
  {
    hide SameId, SameNamespace, OldNamespace;
    if t.index == orig.index {
      forall i, j | 0 <= i < j < |t.rows| ensures !ClashAt(t, i, j) {
        assert SameId(t, i, j) <==> orig.rows[i].id.text == orig.rows[j].id.text;
        assert SameNamespace(t, i, j) <==> OldNamespace(orig, i) == OldNamespace(orig, j);
      }
    }
    assert forall i, j :: 0 <= i < j < |t.rows| ==> (SameKey(t, TARGET_INDEX.columns, i, j) <==> SameRow(orig, i, j));
  }

  /** How far an adapter has come that has had the table to itself. */
  ghost predicate Alone(orig: Table, t: Table, pc: Pc) {
    pc.Failed? || (
      && Sound(orig, t) && Reached(orig, t, pc)
      && (Stage(pc) <= 4 ==> t.idType == orig.idType && (orig.nsType.Some? ==> t.nsType == orig.nsType))
      && (Stage(pc) <= 5 ==> t.primaryKey == orig.primaryKey)
      && (Stage(pc) <= 8 ==> t.index == orig.index)
      && (pc.ToText? || pc.ToBinary? ==>
            && pc.idWidth == NeedsText(orig.idType)
            && pc.nsWidth == if orig.nsType.Some? then NeedsText(orig.nsType.value) else None)
      && (Stage(pc) >= 6 ==> AllBytes(t))
      && (Stage(pc) >= 5 ==> !Clashes(orig))
      && (Stage(pc) >= 9 ==> RowsDiffer(orig)))
  }

  lemma AloneReads(orig: Table, t: Table, p: Proc)
    requires Legacy(orig, p.nsBytes) && Alone(orig, t, p.pc) && (p.pc.Show? || p.pc.AddColumn? || p.pc.ShowAgain?)
    ensures Alone(orig, Step(p, t).table, Step(p, t).pc) && !Step(p, t).pc.Failed?
  {
    StepEffect(orig, t, p);
    if p.pc.AddColumn? { AddColumnStep(orig, t, p); }
    if p.pc.ShowAgain? && AllBytes(t) {
      BytesClashNever(orig, t);
      SameKindsSameKeys(orig, t);
    }
  }

  lemma AloneConverts(orig: Table, t: Table, p: Proc)
    requires Legacy(orig, p.nsBytes) && Alone(orig, t, p.pc) && (p.pc.ToText? || p.pc.ToBinary?)
    ensures Alone(orig, Step(p, t).table, Step(p, t).pc)
    ensures !Clashes(orig) ==> !Step(p, t).pc.Failed?
  {
    if p.pc.ToText? {
      var u := TextTable(t, p.pc.idWidth, p.pc.nsWidth);
      ToTextSound(orig, t, p.pc.idWidth, p.pc.nsWidth, p.nsBytes);
      SameKindsSameKeys(orig, u);
      if !Clashes(u) { ToTextStep(orig, t, p); StepEffect(orig, t, p); }
    } else {
      var u := BinaryTable(t, Scaled(p.pc.idWidth), Scaled(p.pc.nsWidth));
      ToBinarySound(orig, t, p.pc.idWidth, p.pc.nsWidth, p.nsBytes);
      BytesClashNever(orig, u);
      ToBinaryStep(orig, t, p);
      StepEffect(orig, t, p);
    }
  }

  lemma AloneIndexes(orig: Table, t: Table, p: Proc)
    requires Legacy(orig, p.nsBytes) && Alone(orig, t, p.pc) && (p.pc.DropKey? || p.pc.ShowIndex? || p.pc.FixIndex?)
    ensures Alone(orig, Step(p, t).table, Step(p, t).pc)
    ensures RowsDiffer(orig) ==> !Step(p, t).pc.Failed?
  {
    hide Clashes, KeysHold, Duplicates, RowsOk, CheckWidths, KnownCharset;
    BytesClashNever(orig, t);
    if Unhindered(t, p.pc) { StepEffect(orig, t, p); }
    if p.pc.ShowIndex? && t.index == Some(TARGET_INDEX) { TargetKeepsRowsApart(orig); }
  }

  lemma TargetKeepsRowsApart(orig: Table)
    requires KeysHold(orig) && orig.index == Some(TARGET_INDEX)
    ensures RowsDiffer(orig)
  {}

  lemma AloneFinishes(orig: Table, t: Table, p: Proc)
    requires Legacy(orig, p.nsBytes) && Alone(orig, t, p.pc) && Stage(p.pc) >= 9
    ensures Alone(orig, Step(p, t).table, Step(p, t).pc)
    ensures !p.pc.Failed? ==> !Step(p, t).pc.Failed?
  {
    hide Clashes, KeysHold, Duplicates, RowsOk, CheckWidths, RowsDiffer, KnownCharset;
    if !p.pc.Failed? { StepEffect(orig, t, p); }
  }

  /** The turns of one adapter, while the others wait. */
  lemma {:induction false} AloneRun(orig: Table, w: World, ks: seq<nat>, k: nat)
    requires k < |w.procs| && Legacy(orig, w.procs[k].nsBytes) && (forall j :: 0 <= j < |ks| ==> ks[j] == k)
    requires w.db.Some? && Alone(orig, w.db.value, w.procs[k].pc)
    ensures var v := Run(w, ks);
            && v.db.Some? && Alone(orig, v.db.value, v.procs[k].pc) && v.procs[k].nsBytes == w.procs[k].nsBytes
            && (forall j :: 0 <= j < |w.procs| && j != k ==> v.procs[j] == w.procs[j])
            && Stage(v.procs[k].pc) >= Min(Stage(w.procs[k].pc) + |ks|, 11)
            && (!Clashes(orig) && RowsDiffer(orig) && !w.procs[k].pc.Failed? ==> !v.procs[k].pc.Failed?)
    decreases |ks|
  {
    if ks != [] {
      AloneMove(orig, w, k);
      AloneRun(orig, Move(w, k), ks[1..], k);
    }
  }

  lemma AloneMove(orig: Table, w: World, k: nat)
    requires k < |w.procs| && Legacy(orig, w.procs[k].nsBytes)
    requires w.db.Some? && Alone(orig, w.db.value, w.procs[k].pc)
    ensures var v := Move(w, k);
            && v.db.Some? && Alone(orig, v.db.value, v.procs[k].pc) && v.procs[k].nsBytes == w.procs[k].nsBytes
            && (forall j :: 0 <= j < |w.procs| && j != k ==> v.procs[j] == w.procs[j])
            && Stage(v.procs[k].pc) >= Min(Stage(w.procs[k].pc) + 1, 11)
            && (!Clashes(orig) && RowsDiffer(orig) && !w.procs[k].pc.Failed? ==> !v.procs[k].pc.Failed?)
  {
    hide Alone, Step, Clashes, RowsDiffer, Legacy;
    var p, t := w.procs[k], w.db.value;
    match p.pc
    case Create => AloneStarts(orig, t);
    case Show => AloneReads(orig, t, p); AloneGrows(t, p);
    case AddColumn => AloneReads(orig, t, p); AloneGrows(t, p);
    case ShowAgain => AloneReads(orig, t, p); AloneGrows(t, p);
    case ToText(_, _) => AloneConverts(orig, t, p); AloneGrows(t, p);
    case ToBinary(_, _) => AloneConverts(orig, t, p); AloneGrows(t, p);
    case DropKey => AloneIndexes(orig, t, p); AloneGrows(t, p);
    case ShowIndex => AloneIndexes(orig, t, p); AloneGrows(t, p);
    case FixIndex(_) => AloneIndexes(orig, t, p); AloneGrows(t, p);
    case _ => AloneFinishes(orig, t, p); AloneGrows(t, p);
  }

  lemma AloneStarts(orig: Table, t: Table)
    requires Alone(orig, t, Create)
    ensures Alone(orig, t, Show)
  {}

  lemma AloneGrows(t: Table, p: Proc)
    requires p.pc != Create
    ensures Stage(Step(p, t).pc) >= Min(Stage(p.pc) + 1, 11)
  {
    if p.pc != Done && !Step(p, t).pc.Failed? { StageGrows(t, p); }
  }

  lemma LegacyIsSound(orig: Table, nsBytes: nat)
    requires Legacy(orig, nsBytes)
    ensures Sound(orig, orig) && Alone(orig, orig, Create)
  {}

  /** A single adapter ends with the target schema and all rows kept, exactly when the keys of the legacy
      table still hold without trailing spaces of text and its rows differ. */
  lemma AloneExactly(orig: Table, w: World, ks: seq<nat>)
    requires w.db == Some(orig) && Starting(w) && |w.procs| == 1 && Legacy(orig, w.procs[0].nsBytes)
    requires Schedule(1, ks) && |ks| >= 11
    ensures var v := Run(w, ks);
            (v.db.Some? && v.procs[0].pc.Done? && Target(v.db.value) && KeptRows(orig, v.db.value))
            <==> !Clashes(orig) && RowsDiffer(orig)
    ensures (!Clashes(orig) && RowsDiffer(orig)) || Run(w, ks).procs[0].pc.Failed?
  {
    LegacyIsSound(orig, w.procs[0].nsBytes);
    AloneRun(orig, w, ks, 0);
    var v := Run(w, ks);
    if v.procs[0].pc.Done? {
      assert Sound(orig, v.db.value) && Reached(orig, v.db.value, Done) && AllBytes(v.db.value);
    }
  }

  // ----- Exactly which can be migrated by several adapters at once -----

  ghost predicate Migration(orig: Table, w: World, ks: seq<nat>) {
    && w.db == Some(orig) && Starting(w) && Schedule(|w.procs|, ks)
    && (forall k :: 0 <= k < |w.procs| ==> Legacy(orig, w.procs[k].nsBytes))
  }

  ghost predicate SomeoneFails(w: World) { exists k :: 0 <= k < |w.procs| && w.procs[k].pc.Failed? }

  /** Some schedule of some number of adapters lets one of them fail, exactly when the keys of the legacy table
      do not hold, or its rows do not differ, without trailing spaces of text. */
  lemma TogetherExactly(orig: Table, nsBytes: nat)
    requires Legacy(orig, nsBytes)
    ensures (exists w, ks :: Migration(orig, w, ks) && SomeoneFails(Run(w, ks))) <==> Clashes(orig) || Duplicates(orig)
  {
    if Clashes(orig) || Duplicates(orig) {
      var w, ks := FailingMigration(orig, nsBytes);
      assert Migration(orig, w, ks) && SomeoneFails(Run(w, ks));
    } else {
      forall w, ks | Migration(orig, w, ks) ensures !SomeoneFails(Run(w, ks)) {
        MigrationsConverge(orig, w, ks);
      }
    }
  }

  /** With equal rows or broken keys one adapter fails alone.  Otherwise a second adapter reads the column types
      before the first one migrates, and turns the migrated columns into text once more, under the new index. */
  lemma FailingMigration(orig: Table, nsBytes: nat) returns (w: World, ks: seq<nat>)
    requires Legacy(orig, nsBytes) && (Clashes(orig) || Duplicates(orig))
    ensures Migration(orig, w, ks) && SomeoneFails(Run(w, ks))
  {
    hide Legacy, Clashes, Duplicates, RowsDiffer, Run, Alone, KeptRows, Target;
    var p := Proc(0, nsBytes, Create);
    if Clashes(orig) || !RowsDiffer(orig) {
      w, ks := World(Some(orig), [p]), seq(11, _ => 0);
      AloneExactly(orig, w, ks);
      assert Run(w, ks).procs[0].pc.Failed?;
    } else {
      w := World(Some(orig), [p, p]);
      ks := LateConversion(orig, w);
      assert Run(w, ks).procs[0].pc.Failed?;
    }
  }

  lemma LateConversion(orig: Table, w: World) returns (ks: seq<nat>)
    requires w.db == Some(orig) && Starting(w) && |w.procs| == 2
    requires Legacy(orig, w.procs[0].nsBytes) && Legacy(orig, w.procs[1].nsBytes)
    requires Duplicates(orig) && !Clashes(orig) && RowsDiffer(orig)
    ensures Schedule(2, ks) && Run(w, ks).procs[0].pc.Failed?
  {
    hide Legacy, Clashes, Duplicates, RowsDiffer, Run, Alone, Move;
    var first := if orig.nsType.None? then [0, 0, 0, 0] else [0, 0, 0];
    var second: seq<nat> := seq(11, _ => 1);
    SecondReadsTypes(orig, w, first);
    LegacyIsSound(orig, w.procs[0].nsBytes);
    AloneRun(orig, w, first, 0);
    var u := Run(w, first);
    AloneAgain(orig, u.db.value, u.procs[0].pc);
    AloneRun(orig, u, second, 1);
    var v := Run(u, second);
    LateConversionFails(orig, v);
    RunAppend(w, first, second);
    RunAppend(w, first + second, [0]);
    RunOne(v, 0);
    ks := first + second + [0];
  }

  lemma AloneAgain(orig: Table, t: Table, pc: Pc)
    requires Alone(orig, t, pc) && pc.ToText?
    ensures Alone(orig, t, Create)
    ensures pc == ToText(NeedsText(orig.idType), if orig.nsType.Some? then NeedsText(orig.nsType.value) else None)
  {}

  lemma RunOne(w: World, k: nat)
    requires k < |w.procs|
    ensures Run(w, [k]) == Move(w, k)
  {
    assert Run(Move(w, k), [k][1..]) == Move(w, k);
  }

  lemma SecondReadsTypes(orig: Table, w: World, first: seq<nat>)
    requires |w.procs| == 2 && w.db == Some(orig) && w.procs[0].pc == Create && Legacy(orig, w.procs[0].nsBytes)
    requires Duplicates(orig) && RowsDiffer(orig)
    requires first == if orig.nsType.None? then [0, 0, 0, 0] else [0, 0, 0]
    ensures Run(w, first).procs[0].pc.ToText?
  {
    hide Duplicates, RowsDiffer, KeysHold, RowsOk, Run;
    SomeText(orig, w.procs[0].nsBytes);
    var a := Move(w, 0);
    var b := Move(a, 0);
    var c := Move(b, 0);
    RunOne(w, 0);
    RunOne(a, 0);
    RunOne(b, 0);
    RunOne(c, 0);
    RunAppend(w, [0], [0]);
    RunAppend(w, [0] + [0], [0]);
    RunAppend(w, [0] + [0] + [0], [0]);
    assert [0, 0, 0] == [0] + [0] + [0] && [0, 0, 0, 0] == [0] + [0] + [0] + [0];
    assert b.procs[0].pc == if orig.nsType.None? then AddColumn else ShowAgain;
    if orig.nsType.None? {
      LegacyIsSound(orig, w.procs[0].nsBytes);
      AddColumnStep(orig, orig, b.procs[0]);
      assert c.procs[0].pc == ShowAgain;
      assert c.db.value.idType == orig.idType && c.db.value.nsType.Some?;
      assert CheckWidths(c.db.value, 0) == None;
    }
  }

  /** Rows that differ in trailing spaces only are text. */
  lemma SomeText(orig: Table, nsBytes: nat)
    requires Legacy(orig, nsBytes) && Duplicates(orig) && RowsDiffer(orig)
    ensures orig.idType.Text? || (orig.nsType.Some? && orig.nsType.value.Text?)
  {
    var i, j :| 0 <= i < j < |orig.rows| && SameKey(orig, TARGET_INDEX.columns, i, j);
    assert !SameRow(orig, i, j);
  }

  lemma LateConversionFails(orig: Table, w: World)
    requires |w.procs| == 2 && w.db.Some? && Duplicates(orig)
    requires Legacy(orig, w.procs[0].nsBytes)
    requires w.procs[1].pc.Done? && Alone(orig, w.db.value, w.procs[1].pc)
    requires w.procs[0].pc == ToText(NeedsText(orig.idType), if orig.nsType.Some? then NeedsText(orig.nsType.value) else None)
    ensures Move(w, 0).procs[0].pc.Failed?
  {
    hide SameKey, RowsOk, KeysHold, KnownCharset, CheckWidths;
    var t, pc := w.db.value, w.procs[0].pc;
    var u := TextTable(t, pc.idWidth, pc.nsWidth);
    ToTextSound(orig, t, pc.idWidth, pc.nsWidth, w.procs[0].nsBytes);
    SameKindsSameKeys(orig, u);
    var i, j :| 0 <= i < j < |u.rows| && SameKey(u, TARGET_INDEX.columns, i, j);
    assert ClashAt(u, i, j);
    assert Clashes(u);
  }

  lemma {:induction false} RunAppend(w: World, ks: seq<nat>, js: seq<nat>)
    requires Schedule(|w.procs|, ks) && Schedule(|w.procs|, js)
    ensures Schedule(|w.procs|, ks + js) && Run(w, ks + js) == Run(Run(w, ks), js)
    decreases |ks|
  {
    if ks == [] {
      assert ks + js == js;
    } else {
      RunAppend(Move(w, ks[0]), ks[1..], js);
      assert (ks + js)[1..] == ks[1..] + js;
    }
  }

  /** Two ids that differ in a trailing space only, under the primary key of a first version's table. */
  lemma TrailingSpaceFails() returns (orig: Table, ks: seq<nat>)
    ensures Legacy(orig, 16) && RowsDiffer(orig)
    ensures Migration(orig, World(Some(orig), [Proc(64, 16, Create)]), ks)
    ensures Run(World(Some(orig), [Proc(64, 16, Create)]), ks).procs[0].pc.Failed?
  {
    var rows := [Row(Cell(Utf8mb4, "key"), Cell(Utf8mb4, "")), Row(Cell(Utf8mb4, "key "), Cell(Utf8mb4, ""))];
    orig := Table(Text(Utf8mb4, 16), None, true, None, false, false, rows);
    ks := seq(11, _ => 0);
    assert WithoutTrailingSpaces("key ") == WithoutTrailingSpaces("key") by {
      assert "key "[..3] == "key";
    }
    assert ClashAt(orig, 0, 1);
    AloneExactly(orig, World(Some(orig), [Proc(64, 16, Create)]), ks);
  }
}
