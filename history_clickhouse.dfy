/** The text the ClickHouse history backend produces: the VALUES tuples of
    the INSERT statement built by clickhouse_add_values, the SELECT built
    by clickhouse_get_values, and the base URL kept by
    zbx_history_clickhouse_init.

    Every number is printed as printf prints it. A float value is carried
    as the text `%f` produced for it; floating point itself is not
    modelled. */
module HistoryClickHouse {
  import opened Wrappers
  import opened CStrings
  import opened Decimal
  import opened Text

  /** ITEM_VALUE_TYPE_FLOAT, _STR, _LOG, _UINT64 and _TEXT. */
  datatype ValueType = TypeFloat | TypeStr | TypeLog | TypeUInt64 | TypeText

  /** The value of a history entry, tagged with its value type. */
  datatype HistoryValue =
    | FloatValue(printed: string)
    | StrValue(str: string)
    | LogValue(log: string)
    | UInt64Value(ui64: UInt64)
    | TextValue(text: string)

  function TypeOf(v: HistoryValue): ValueType
  {
    match v
    case FloatValue(_) => TypeFloat
    case StrValue(_) => TypeStr
    case LogValue(_) => TypeLog
    case UInt64Value(_) => TypeUInt64
    case TextValue(_) => TypeText
  }

  /** A ZBX_DC_HISTORY entry: item id, timestamp (seconds and nanoseconds)
      and value. */
  datatype History = History(itemid: UInt64, sec: Int32, ns: Int32, value: HistoryValue)

  /** The comma-separated pieces of one VALUES tuple, the opening
      parenthesis on the first piece and the closing one on the last:
      date, itemid, clock, ns, value, value_dbl, value_str. `fmt` prints
      the unsigned 64-bit fields. A string value goes between quotes as it
      is, with no escaping. */
  function Pieces(h: History, fmt: UInt64 -> string): (p: seq<string>)
    requires !h.value.LogValue?
    ensures |p| == 7
    ensures p[0] == "(CAST(" + IntToDec(h.sec) + " as date) " && p[1] == fmt(h.itemid)
            && p[2] == IntToDec(h.sec) && p[3] == IntToDec(h.ns)
    ensures h.value.UInt64Value? ==> p[4..] == [fmt(h.value.ui64), "0", "'')"]
    ensures h.value.FloatValue? ==> p[4..] == ["0", h.value.printed, "'')"]
    ensures (h.value.StrValue? || h.value.TextValue?) ==> p[4..6] == ["0", "0"]
    ensures h.value.StrValue? ==> p[6] == "'" + CStr(h.value.str) + "')"
    ensures h.value.TextValue? ==> p[6] == "'" + CStr(h.value.text) + "')"
  {
    var head := ["(CAST(" + IntToDec(h.sec) + " as date) ", fmt(h.itemid), IntToDec(h.sec), IntToDec(h.ns)];
    match h.value
    case UInt64Value(u) => head + [fmt(u), "0", "'')"]
    case FloatValue(d) => head + ["0", d, "'')"]
    case StrValue(s) => head + ["0", "0", "'" + CStr(s) + "')"]
    case TextValue(s) => head + ["0", "0", "'" + CStr(s) + "')"]
  }

  /** The tuple one entry contributes, comma included; a LOG entry
      contributes nothing. */
  function TupleWith(h: History, fmt: UInt64 -> string): string
  {
    if h.value.LogValue? then "" else Join(',', Pieces(h, fmt)) + ","
  }

  /** The tuple as the source prints it: itemid and an unsigned value go
      through `%ld`. */
  function TupleAsWritten(h: History): (r: string)
    ensures h.value.LogValue? <==> r == ""
    ensures !h.value.LogValue? ==> r == Join(',', Pieces(h, FormatLd)) + ","
    ensures FitsLong(h) ==> r == Tuple(h)
  {
    TupleWith(h, FormatLd)
  }

  /** The tuple with the unsigned fields printed as unsigned numbers (as
      history_value2str prints them with ZBX_FS_UI64). */
  function Tuple(h: History): string
  {
    TupleWith(h, FormatUInt64)
  }

  /** The entries of the interface's value type, in input order. */
  function Matching(vt: ValueType, hs: seq<History>): (m: seq<History>)
    ensures |m| <= |hs|
    ensures forall k :: 0 <= k < |m| ==> TypeOf(m[k].value) == vt && m[k] in hs
  {
    if |hs| == 0 then []
    else (if TypeOf(hs[0].value) == vt then [hs[0]] else []) + Matching(vt, hs[1..])
  }

  /** The tuples of the given entries, one after another, with `fmt`
      printing the unsigned fields. */
  function TuplesWith(hs: seq<History>, fmt: UInt64 -> string): string
  {
    if |hs| == 0 then "" else TupleWith(hs[0], fmt) + TuplesWith(hs[1..], fmt)
  }

  /** The tuples as the source prints them, through `%ld`. */
  function TuplesAsWritten(hs: seq<History>): string
  {
    TuplesWith(hs, FormatLd)
  }

  /** The tuples with the unsigned fields printed unsigned. */
  function Tuples(hs: seq<History>): string
  {
    TuplesWith(hs, FormatUInt64)
  }

  /** Both unsigned fields of an entry fit in a signed long. */
  predicate FitsLong(h: History)
  {
    h.itemid < TwoTo63 && (h.value.UInt64Value? ==> h.value.ui64 < TwoTo63)
  }

  function InsertHead(table: string): string
  {
    "INSERT INTO " + table + " VALUES "
  }

  lemma {:induction false} MatchingAppend(vt: ValueType, hs: seq<History>, h: History)
    ensures Matching(vt, hs + [h]) == Matching(vt, hs) + (if TypeOf(h.value) == vt then [h] else [])
  {
    if |hs| > 0 {
      assert (hs + [h])[1..] == hs[1..] + [h];
      MatchingAppend(vt, hs[1..], h);
    }
  }

  lemma {:induction false} TuplesAppend(hs: seq<History>, h: History, fmt: UInt64 -> string)
    ensures TuplesWith(hs + [h], fmt) == TuplesWith(hs, fmt) + TupleWith(h, fmt)
  {
    if |hs| > 0 {
      assert (hs + [h])[1..] == hs[1..] + [h];
      TuplesAppend(hs[1..], h, fmt);
    }
  }

  /** The loop of clickhouse_add_values: the number of entries of type `vt`
      and the INSERT statement listing their tuples in input order, printed
      as the source prints them. */
  method BuildInsert(table: string, vt: ValueType, history: seq<History>) returns (num: nat, stmt: string)
    ensures num == |Matching(vt, history)|
    ensures stmt == InsertHead(table) + TuplesAsWritten(Matching(vt, history))
  {
    num := 0;
    stmt := InsertHead(table);
    for i := 0 to |history|
      invariant num == |Matching(vt, history[..i])|
      invariant stmt == InsertHead(table) + TuplesAsWritten(Matching(vt, history[..i]))
    {
      InsertStep(table, vt, history, i);
      if TypeOf(history[i].value) == vt {
        stmt := stmt + TupleAsWritten(history[i]);
        num := num + 1;
      }
    }
    assert history[..|history|] == history;
  }

  lemma Associative(a: string, b: string, c: string)
    ensures a + b + c == a + (b + c)
  {
  }

  /** One more entry adds its tuple and one to the count when it has the
      interface's type, and nothing otherwise. */
  lemma InsertStep(table: string, vt: ValueType, history: seq<History>, i: nat)
    requires i < |history|
    ensures var before, after := Matching(vt, history[..i]), Matching(vt, history[..i + 1]);
            if TypeOf(history[i].value) == vt
            then |after| == |before| + 1 &&
                 InsertHead(table) + TuplesAsWritten(after)
                   == InsertHead(table) + TuplesAsWritten(before) + TupleAsWritten(history[i])
            else after == before
  {
    var hs, h := history[..i], history[i];
    assert history[..i + 1] == hs + [h];
    MatchingAppend(vt, hs, h);
    if TypeOf(h.value) == vt {
      TuplesAppend(Matching(vt, hs), h, FormatLd);
      Associative(InsertHead(table), TuplesAsWritten(Matching(vt, hs)), TupleAsWritten(h));
    } else {
      assert Matching(vt, hs) + [] == Matching(vt, hs);
    }
  }

  /** The value types of the entries, in order. */
  function Types(hs: seq<History>): (ts: seq<ValueType>)
    ensures |ts| == |hs| && forall k :: 0 <= k < |hs| ==> ts[k] == TypeOf(hs[k].value)
  {
    seq(|hs|, k requires 0 <= k < |hs| => TypeOf(hs[k].value))
  }

  /** The count clickhouse_add_values returns is the number of entries of
      the interface's value type; the others contribute nothing. */
  lemma {:induction false} MatchingCount(vt: ValueType, hs: seq<History>)
    ensures |Matching(vt, hs)| == multiset(Types(hs))[vt]
  {
    if |hs| > 0 {
      MatchingCount(vt, hs[1..]);
      assert Types(hs) == [TypeOf(hs[0].value)] + Types(hs[1..]);
    }
  }

  /** A batch of LOG entries is counted but yields no tuple, however the
      numbers are printed. */
  lemma {:induction false} LogNotWritten(hs: seq<History>, fmt: UInt64 -> string)
    ensures TuplesWith(Matching(TypeLog, hs), fmt) == ""
  {
    if |hs| > 0 {
      LogNotWritten(hs[1..], fmt);
      var m := Matching(TypeLog, hs);
      if hs[0].value.LogValue? {
        assert m == [hs[0]] + Matching(TypeLog, hs[1..]);
        assert m[1..] == Matching(TypeLog, hs[1..]);
        assert TupleWith(hs[0], fmt) == "";
      } else {
        assert m == Matching(TypeLog, hs[1..]);
      }
    }
  }

  /** A parsed UINT64 tuple, or None when the pieces are not one. */
  function DecodeUInt64Tuple(p: seq<string>): Option<History>
    requires |p| == 7
  {
    var id, sec, ns, v := ParseUInt64(p[1]), ParseInt(p[2]), ParseInt(p[3]), ParseUInt64(p[4]);
    if id.Some? && sec.Some? && ns.Some? && v.Some?
       && -0x8000_0000 <= sec.value < 0x8000_0000 && -0x8000_0000 <= ns.value < 0x8000_0000
       && p[0] == "(CAST(" + p[2] + " as date) " && p[5] == "0" && p[6] == "'')"
    then Some(History(id.value, sec.value, ns.value, UInt64Value(v.value)))
    else None
  }

  /** The UINT64 entries listed by comma-separated tuple text: seven pieces
      per tuple and the empty piece after the last comma. */
  function DecodeBatch(pieces: seq<string>): Option<seq<History>>
    decreases |pieces|
  {
    if pieces == [""] then Some([])
    else if |pieces| > 7 then
      match (DecodeUInt64Tuple(pieces[..7]), DecodeBatch(pieces[7..]))
      case (Some(h), Some(rest)) => Some([h] + rest)
      case _ => None
    else None
  }

  /** The entries an INSERT statement for `table` lists, read back. */
  function DecodeInsert(table: string, stmt: string): Option<seq<History>>
  {
    var head := InsertHead(table);
    if |head| <= |stmt| && stmt[..|head|] == head then DecodeBatch(Explode(',', stmt[|head|..]))
    else None
  }

  /** No printed number contains a comma. */
  lemma NoCommaInNumber(n: int)
    ensures ',' !in IntToDec(n)
  {
    IntToDecChars(n);
  }

  /** A UINT64 tuple splits into its seven pieces when the printed
      unsigned fields hold no comma. */
  lemma PiecesSplit(h: History, fmt: UInt64 -> string, rest: string)
    requires h.value.UInt64Value? && ',' !in fmt(h.itemid) && ',' !in fmt(h.value.ui64)
    ensures Explode(',', TupleWith(h, fmt) + rest) == Pieces(h, fmt) + Explode(',', rest)
  {
    var p := Pieces(h, fmt);
    NoCommaInNumber(h.sec);
    NoCommaInNumber(h.ns);
    assert ',' !in p[0] by {
      assert p[0] == "(CAST(" + IntToDec(h.sec) + " as date) ";
    }
    assert forall k :: 0 <= k < 7 ==> ',' !in p[k];
    assert TupleWith(h, fmt) + rest == Join(',', p) + [','] + rest;
    ExplodeJoinThen(',', p, rest);
  }

  lemma UInt64Pieces(h: History, rest: string)
    requires h.value.UInt64Value?
    ensures Explode(',', Tuple(h) + rest) == Pieces(h, FormatUInt64) + Explode(',', rest)
  {
    PiecesSplit(h, FormatUInt64, rest);
  }

  /** A UINT64 tuple reads back as the entry it was printed from. */
  lemma UInt64TupleRoundTrip(h: History)
    requires h.value.UInt64Value?
    ensures DecodeUInt64Tuple(Pieces(h, FormatUInt64)) == Some(h)
  {
    UInt64RoundTrip(h.itemid);
    UInt64RoundTrip(h.value.ui64);
    IntRoundTrip(h.sec);
    IntRoundTrip(h.ns);
  }

  /** The tuples of UINT64 entries read back as those entries. */
  lemma {:induction false} BatchRoundTrip(hs: seq<History>)
    requires forall k :: 0 <= k < |hs| ==> hs[k].value.UInt64Value?
    ensures DecodeBatch(Explode(',', Tuples(hs))) == Some(hs)
  {
    if |hs| > 0 {
      UInt64Pieces(hs[0], Tuples(hs[1..]));
      UInt64TupleRoundTrip(hs[0]);
      BatchRoundTrip(hs[1..]);
      DecodeBatchCons(Pieces(hs[0], FormatUInt64), Explode(',', Tuples(hs[1..])), hs[0], hs[1..]);
      assert [hs[0]] + hs[1..] == hs;
    }
  }

  /** A tuple's seven pieces ahead of a readable batch read back as that
      entry ahead of the batch. */
  lemma DecodeBatchCons(p: seq<string>, e: seq<string>, h: History, rest: seq<History>)
    requires |p| == 7 && DecodeUInt64Tuple(p) == Some(h) && DecodeBatch(e) == Some(rest)
    ensures DecodeBatch(p + e) == Some([h] + rest)
  {
    assert (p + e)[..7] == p && (p + e)[7..] == e;
    assert (p + e) != [""];
  }

  /** The statement clickhouse_add_values builds for a UINT64 interface
      reads back as the UINT64 entries of the batch, in order. */
  lemma InsertRoundTrip(table: string, history: seq<History>)
    ensures DecodeInsert(table, InsertHead(table) + Tuples(Matching(TypeUInt64, history)))
              == Some(Matching(TypeUInt64, history))
  {
    var m := Matching(TypeUInt64, history);
    DecodeInsertBody(table, Tuples(m));
    assert forall k :: 0 <= k < |m| ==> m[k].value.UInt64Value?;
    BatchRoundTrip(m);
  }

  /** Printed through `%ld`, entries whose unsigned fields fit in a signed
      long give the same tuples as printed unsigned. */
  lemma {:induction false} AsWrittenAgrees(hs: seq<History>)
    requires forall k :: 0 <= k < |hs| ==> FitsLong(hs[k])
    ensures TuplesAsWritten(hs) == Tuples(hs)
  {
    if |hs| > 0 {
      var h := hs[0];
      assert FitsLong(h);
      assert TupleWith(h, FormatLd) == TupleWith(h, FormatUInt64) by {
        if !h.value.LogValue? {
          assert FormatLd(h.itemid) == FormatUInt64(h.itemid);
          if h.value.UInt64Value? {
            assert FormatLd(h.value.ui64) == FormatUInt64(h.value.ui64);
          }
          assert Pieces(h, FormatLd) == Pieces(h, FormatUInt64);
        }
      }
      AsWrittenAgrees(hs[1..]);
    }
  }

  /** The statement clickhouse_add_values builds as written, for a UINT64
      interface whose entries all have their itemid and value below 2^63,
      reads back as the UINT64 entries of the batch, in order. */
  lemma InsertRoundTripAsWritten(table: string, history: seq<History>)
    requires forall k :: 0 <= k < |history| ==> FitsLong(history[k])
    ensures DecodeInsert(table, InsertHead(table) + TuplesAsWritten(Matching(TypeUInt64, history)))
              == Some(Matching(TypeUInt64, history))
  {
    var m := Matching(TypeUInt64, history);
    assert forall k :: 0 <= k < |m| ==> FitsLong(m[k]);
    AsWrittenAgrees(m);
    InsertRoundTrip(table, history);
  }

  /** As written, a UINT64 entry whose itemid or value is 2^63 or more
      prints that field as a negative number, and its tuple no longer reads
      back. */
  lemma AsWrittenTupleUnreadable(h: History)
    requires h.value.UInt64Value? && (h.itemid >= TwoTo63 || h.value.ui64 >= TwoTo63)
    ensures DecodeBatch(Explode(',', TupleAsWritten(h))) == None
    ensures DecodeBatch(Explode(',', Tuple(h))) == Some([h])
  {
    var p := Pieces(h, FormatLd);
    LdTupleUnreadable(h);
    LdPiecesSplit(h, "");
    assert TupleAsWritten(h) + "" == TupleAsWritten(h);
    assert (p + [""])[..7] == p;
    TupleReadsBack(h);
  }

  /** Every entry of the interface's value type is among the matching
      ones. */
  lemma {:induction false} MatchingKeeps(vt: ValueType, hs: seq<History>, k: nat)
    requires k < |hs| && TypeOf(hs[k].value) == vt
    ensures hs[k] in Matching(vt, hs)
  {
    if k > 0 {
      MatchingKeeps(vt, hs[1..], k - 1);
    }
  }

  /** As written, UINT64 tuples of which one has a field at or above 2^63
      no longer read back as a batch: the tuples before it read back, and
      that one does not. */
  lemma {:induction false} AsWrittenBatchUnreadable(hs: seq<History>, k: nat)
    requires forall j :: 0 <= j < |hs| ==> TypeOf(hs[j].value) == TypeUInt64
    requires k < |hs| && !FitsLong(hs[k])
    ensures DecodeBatch(Explode(',', TuplesAsWritten(hs))) == None
  {
    var h := hs[0];
    assert TypeOf(h.value) == TypeUInt64;
    var p := Pieces(h, FormatLd);
    var e := Explode(',', TuplesAsWritten(hs[1..]));
    LdPiecesSplit(h, TuplesAsWritten(hs[1..]));
    assert (p + e)[..7] == p && (p + e)[7..] == e && p + e != [""];
    if !FitsLong(h) {
      LdTupleUnreadable(h);
    } else {
      assert hs[1..][k - 1] == hs[k];
      AsWrittenBatchUnreadable(hs[1..], k - 1);
    }
  }

  /** A tuple printed through `%ld` splits into its seven pieces. */
  lemma LdPiecesSplit(h: History, rest: string)
    requires h.value.UInt64Value?
    ensures Explode(',', TupleAsWritten(h) + rest) == Pieces(h, FormatLd) + Explode(',', rest)
  {
    NoCommaInNumber(if h.itemid < TwoTo63 then h.itemid else h.itemid - TwoTo64);
    NoCommaInNumber(if h.value.ui64 < TwoTo63 then h.value.ui64 else h.value.ui64 - TwoTo64);
    PiecesSplit(h, FormatLd, rest);
  }

  /** The pieces of a UINT64 entry with a field at or above 2^63, printed
      through `%ld`, are not a tuple. */
  lemma LdTupleUnreadable(h: History)
    requires h.value.UInt64Value? && !FitsLong(h)
    ensures DecodeUInt64Tuple(Pieces(h, FormatLd)) == None
  {
    if h.itemid >= TwoTo63 {
      LdUnreadable(h.itemid);
    } else {
      LdUnreadable(h.value.ui64);
    }
  }

  /** As written, the statement for a UINT64 interface with an entry whose
      itemid or value is 2^63 or more does not read back at all. */
  lemma InsertAsWrittenUnreadable(table: string, history: seq<History>, k: nat)
    requires k < |history| && history[k].value.UInt64Value? && !FitsLong(history[k])
    ensures DecodeInsert(table, InsertHead(table) + TuplesAsWritten(Matching(TypeUInt64, history))) == None
  {
    var m := Matching(TypeUInt64, history);
    DecodeInsertBody(table, TuplesAsWritten(m));
    MatchingKeeps(TypeUInt64, history, k);
    var j :| 0 <= j < |m| && m[j] == history[k];
    AsWrittenBatchUnreadable(m, j);
  }

  /** A statement that starts with the INSERT head is read back from the
      text after it. */
  lemma DecodeInsertBody(table: string, body: string)
    ensures DecodeInsert(table, InsertHead(table) + body) == DecodeBatch(Explode(',', body))
  {
    var stmt := InsertHead(table) + body;
    assert stmt[..|InsertHead(table)|] == InsertHead(table);
    assert stmt[|InsertHead(table)|..] == body;
  }

  /** A single UINT64 tuple printed unsigned reads back as its entry. */
  lemma TupleReadsBack(h: History)
    requires h.value.UInt64Value?
    ensures DecodeBatch(Explode(',', Tuple(h))) == Some([h])
  {
    BatchRoundTrip([h]);
    assert [h][1..] == [];
    assert TuplesWith([], FormatUInt64) == "";
    assert Tuples([h]) == Tuple(h) + "" == Tuple(h);
  }

  /** One condition of the WHERE clause on the clock column. */
  const ClockEqText: string := "AND clock = "
  const ClockGtText: string := "AND clock > "
  const ClockLeText: string := "AND clock <= "
  const OrderText: string := "ORDER BY clock DESC "
  const LimitText: string := "LIMIT "

  datatype ClockCond = ClockIs(t: int) | ClockAfter(t: int) | ClockUpTo(t: int)

  predicate Holds(c: ClockCond, clock: int)
  {
    match c
    case ClockIs(t) => clock == t
    case ClockAfter(t) => clock > t
    case ClockUpTo(t) => clock <= t
  }

  function CondText(c: ClockCond): string
  {
    match c
    case ClockIs(t) => ClockEqText + IntToDec(t) + " "
    case ClockAfter(t) => ClockGtText + IntToDec(t) + " "
    case ClockUpTo(t) => ClockLeText + IntToDec(t) + " "
  }

  function CondsText(cs: seq<ClockCond>): string
  {
    if |cs| == 0 then "" else CondText(cs[0]) + CondsText(cs[1..])
  }

  /** The clock conditions for the period ]start, end]: a one-second period
      is asked for by its end alone; otherwise a bound that is not positive
      is left out. */
  function ClockFilter(start: Int32, end: Int32): (f: seq<ClockCond>)
    ensures end - start == 1 <==> f == [ClockIs(end)]
    ensures end - start != 1 ==>
              (ClockAfter(start) in f <==> 0 < start) && (ClockUpTo(end) in f <==> 0 < end)
              && forall k :: 0 <= k < |f| ==> !f[k].ClockIs?
    ensures |f| == 2 ==> f == [ClockAfter(start), ClockUpTo(end)]
  {
    if end - start == 1 then [ClockIs(end)]
    else
      var f := (if 0 < start then [ClockAfter(start)] else []) + (if 0 < end then [ClockUpTo(end)] else []);
      assert forall k :: 0 <= k < |f| ==> !f[k].ClockIs?;
      assert |f| == 1 ==> !f[0].ClockIs?;
      f
  }

  /** The text of the clock conditions, as the source appends them. */
  lemma FilterText(start: Int32, end: Int32)
    ensures CondsText(ClockFilter(start, end))
              == if end - start == 1 then ClockEqText + IntToDec(end) + " "
                 else (if 0 < start then ClockGtText + IntToDec(start) + " " else "")
                      + (if 0 < end then ClockLeText + IntToDec(end) + " " else "")
  {
    var f := ClockFilter(start, end);
    if end - start == 1 {
      assert f[1..] == [];
    } else if 0 < start && 0 < end {
      assert f == [ClockAfter(start), ClockUpTo(end)];
      assert f[1..] == [ClockUpTo(end)] && f[1..][1..] == [];
      assert CondsText(f[1..]) == CondText(ClockUpTo(end));
    } else if 0 < start {
      assert f == [ClockAfter(start)] && f[1..] == [];
    } else if 0 < end {
      assert f == [ClockUpTo(end)] && f[1..] == [];
    } else {
      assert f == [];
    }
  }

  /** The clocks the filter selects are those of ]start, end], a bound
      that is not positive being open, except for a one-second period that
      does not start after 0, which selects its end alone. */
  lemma ClockFilterMeaning(start: Int32, end: Int32, clock: int)
    ensures (forall k :: 0 <= k < |ClockFilter(start, end)| ==> Holds(ClockFilter(start, end)[k], clock))
            <==> if end - start == 1 && start <= 0 then clock == end
                 else (0 < start ==> start < clock) && (0 < end ==> clock <= end)
  {
    var f := ClockFilter(start, end);
    if end - start == 1 {
      assert f == [ClockIs(end)];
      assert (forall k :: 0 <= k < |f| ==> Holds(f[k], clock)) <==> Holds(f[0], clock);
    } else if 0 < start && 0 < end {
      assert f == [ClockAfter(start), ClockUpTo(end)];
      assert (forall k :: 0 <= k < |f| ==> Holds(f[k], clock)) <==> Holds(f[0], clock) && Holds(f[1], clock);
    } else if 0 < start {
      assert f == [ClockAfter(start)];
      assert (forall k :: 0 <= k < |f| ==> Holds(f[k], clock)) <==> Holds(f[0], clock);
    } else if 0 < end {
      assert f == [ClockUpTo(end)];
      assert (forall k :: 0 <= k < |f| ==> Holds(f[k], clock)) <==> Holds(f[0], clock);
    } else {
      assert f == [];
    }
  }

  const SelectHead: string := "SELECT  toUInt32(clock),ns,value,value_dbl,value_str FROM "

  /** The SELECT for `count` values of an item in ]start, end], newest
      first, all of them when `count` is not positive; `id` is the printed
      itemid. */
  function SelectWith(table: string, id: string, start: Int32, count: Int32, end: Int32): string
  {
    SelectPrefix(table) + (id + " " + SelectTail(start, count, end))
  }

  function SelectPrefix(table: string): string
  {
    SelectHead + table + " WHERE itemid="
  }

  /** The conditions, the ordering and the limit. */
  function SelectTail(start: Int32, count: Int32, end: Int32): (s: string)
    ensures s == (if end - start == 1 then ClockEqText + IntToDec(end) + " "
                  else (if 0 < start then ClockGtText + IntToDec(start) + " " else "")
                       + (if 0 < end then ClockLeText + IntToDec(end) + " " else ""))
                 + (OrderText + (if 0 < count then LimitText + IntToDec(count) else ""))
  {
    FilterText(start, end);
    CondsText(ClockFilter(start, end)) + (OrderText + (if 0 < count then LimitText + IntToDec(count) else ""))
  }

  /** The query as the source builds it, itemid through `%ld`. */
  function SelectQueryAsWritten(table: string, itemid: UInt64, start: Int32, count: Int32, end: Int32): (q: string)
    ensures q == SelectPrefix(table) + FormatLd(itemid) + " " + SelectTail(start, count, end)
    ensures itemid < TwoTo63 ==> q == SelectQuery(table, itemid, start, count, end)
  {
    assert itemid < TwoTo63 ==> FormatLd(itemid) == FormatUInt64(itemid);
    SelectWith(table, FormatLd(itemid), start, count, end)
  }

  /** The query with itemid printed as an unsigned number. */
  function SelectQuery(table: string, itemid: UInt64, start: Int32, count: Int32, end: Int32): (q: string)
    ensures q == SelectPrefix(table) + FormatUInt64(itemid) + " " + SelectTail(start, count, end)
  {
    SelectWith(table, FormatUInt64(itemid), start, count, end)
  }

  /** The itemid a query asks for: the word after "WHERE itemid=". */
  function QueriedItem(table: string, q: string): Option<UInt64>
  {
    var head := SelectPrefix(table);
    if |head| <= |q| && q[..|head|] == head then ParseUInt64(Explode(' ', q[|head|..])[0]) else None
  }

  lemma SplitAfter(head: string, x: string)
    ensures (head + x)[..|head|] == head && (head + x)[|head|..] == x
  {
  }

  lemma QueriedItemOf(table: string, id: string, start: Int32, count: Int32, end: Int32)
    requires ' ' !in id
    ensures QueriedItem(table, SelectWith(table, id, start, count, end)) == ParseUInt64(id)
  {
    var tail := SelectTail(start, count, end);
    SplitAfter(SelectPrefix(table), id + " " + tail);
    ExplodeSeparated(' ', id, tail);
  }

  /** The query asks for the item it was built for; as written, an itemid
      of 2^63 or more is asked for as a negative number, which matches no
      unsigned itemid. */
  lemma SelectQueryItem(table: string, itemid: UInt64, start: Int32, count: Int32, end: Int32)
    ensures QueriedItem(table, SelectQuery(table, itemid, start, count, end)) == Some(itemid)
    ensures itemid >= TwoTo63 ==> QueriedItem(table, SelectQueryAsWritten(table, itemid, start, count, end)) == None
  {
    QueriedItemOf(table, FormatUInt64(itemid), start, count, end);
    UInt64RoundTrip(itemid);
    IntToDecChars(if itemid < TwoTo63 then itemid else itemid - TwoTo64);
    QueriedItemOf(table, FormatLd(itemid), start, count, end);
    if itemid >= TwoTo63 {
      LdUnreadable(itemid);
    }
  }

  /** The URL the interface posts to: the configured one without its
      trailing slashes. */
  function BaseUrl(configured: string): (url: string)
    ensures |url| <= |configured| && configured == url + configured[|url|..]
    ensures forall k :: |url| <= k < |configured| ==> configured[k] == '/'
    ensures |url| == 0 || url[|url| - 1] != '/'
  {
    RTrimmed(configured, {'/'})
  }

  /** Trimming the base URL again changes nothing. */
  lemma BaseUrlIdempotent(configured: string)
    ensures BaseUrl(BaseUrl(configured)) == BaseUrl(configured)
  {
  }
}
