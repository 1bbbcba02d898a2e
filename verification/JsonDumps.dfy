/** `json.dumps`: key sorting, the printed alphabet, and what a dump loads back to. */
module JsonDumps {
  import opened Prelude
  import opened Json
  import Base64Url

  // ----- sort_keys -----

  /** Python's order on strings: by code point, a proper prefix first. */
  predicate LexLess(a: Str, b: Str) {
    if b == [] then false
    else if a == [] then true
    else a[0] < b[0] || (a[0] == b[0] && LexLess(a[1..], b[1..]))
  }

  function Insert(k: Str, v: JValue, f: Fields): Fields {
    match f
    case Nil => Field(k, v, Nil)
    case Field(k', v', rest) => if LexLess(k', k) then Field(k', v', Insert(k, v, rest)) else Field(k, v, f)
  }

  /** Sorts the items of every dict, however deep, by key. */
  function SortValue(v: JValue): JValue {
    match v
    case JObj(f) => JObj(SortFields(f))
    case _ => v
  }

  function SortFields(f: Fields): Fields {
    match f
    case Nil => Nil
    case Field(k, v, rest) => Insert(k, SortValue(v), SortFields(rest))
  }

  predicate Sorted(f: Fields) {
    f.Field? && f.rest.Field? ==> LexLess(f.key, f.rest.key) && Sorted(f.rest)
  }

  /** Every dict inside `v` has its keys in ascending order. */
  predicate DeepSorted(v: JValue) {
    match v
    case JObj(f) => Sorted(f) && DeepSortedFields(f)
    case _ => true
  }

  predicate DeepSortedFields(f: Fields) {
    f.Field? ==> DeepSorted(f.value) && DeepSortedFields(f.rest)
  }

  /** Dicts have one item per key, at every depth. */
  predicate IsDict(v: JValue) {
    match v
    case JObj(f) => DistinctKeys(f) && DictFields(f)
    case _ => true
  }

  predicate DictFields(f: Fields) {
    f.Field? ==> IsDict(f.value) && DictFields(f.rest)
  }

  lemma {:induction false} LexTotal(a: Str, b: Str)
    requires a != b
    ensures LexLess(a, b) || LexLess(b, a)
  {
    if a != [] && b != [] && a[0] == b[0] {
      assert a == [a[0]] + a[1..] && b == [b[0]] + b[1..];
      LexTotal(a[1..], b[1..]);
    }
  }

  lemma {:induction false} HasKeyOfInsert(k: Str, v: JValue, f: Fields, key: Str)
    ensures HasKey(Insert(k, v, f), key) == (key == k || HasKey(f, key))
  {
    if f.Field? {
      HasKeyOfInsert(k, v, f.rest, key);
    }
  }

  lemma {:induction false} GetNeedsKey(f: Fields, key: Str)
    ensures Get(f, key).Some? == HasKey(f, key)
  {
    if f.Field? {
      GetNeedsKey(f.rest, key);
    }
  }

  lemma {:induction false} GetOfInsert(k: Str, v: JValue, f: Fields, key: Str)
    requires !HasKey(f, k)
    ensures Get(Insert(k, v, f), key) == if key == k then Some(v) else Get(f, key)
  {
    GetNeedsKey(f, k);
    if f.Field? {
      GetOfInsert(k, v, f.rest, key);
    }
  }

  lemma {:induction false} HasKeyOfSorted(f: Fields, key: Str)
    ensures HasKey(SortFields(f), key) == HasKey(f, key)
  {
    if f.Field? {
      HasKeyOfSorted(f.rest, key);
      HasKeyOfInsert(f.key, SortValue(f.value), SortFields(f.rest), key);
    }
  }

  /** Sorting a dict changes no lookup (beyond sorting the value found). */
  lemma {:induction false} GetOfSorted(f: Fields, key: Str)
    requires DistinctKeys(f)
    ensures Get(SortFields(f), key)
            == match Get(f, key) case None => None case Some(v) => Some(SortValue(v))
  {
    if f.Field? {
      GetOfSorted(f.rest, key);
      HasKeyOfSorted(f.rest, f.key);
      GetOfInsert(f.key, SortValue(f.value), SortFields(f.rest), key);
      GetNeedsKey(f.rest, f.key);
    }
  }

  lemma {:induction false} InsertSorted(k: Str, v: JValue, f: Fields)
    requires Sorted(f) && !HasKey(f, k) && DeepSorted(v) && DeepSortedFields(f)
    ensures Sorted(Insert(k, v, f)) && DeepSortedFields(Insert(k, v, f))
  {
    if f.Field? {
      if LexLess(f.key, k) {
        InsertSorted(k, v, f.rest);
      } else {
        LexTotal(f.key, k);
      }
    }
  }

  /** Sorted printing lists the keys of every dict in ascending order. */
  lemma {:induction false} SortValueSorts(v: JValue)
    requires IsDict(v)
    ensures DeepSorted(SortValue(v))
    decreases v, 1
  {
    if v.JObj? {
      SortFieldsSorts(v.fields);
    }
  }

  lemma {:induction false} SortFieldsSorts(f: Fields)
    requires DistinctKeys(f) && DictFields(f)
    ensures Sorted(SortFields(f)) && DeepSortedFields(SortFields(f))
    decreases f, 0
  {
    if f.Field? {
      SortValueSorts(f.value);
      SortFieldsSorts(f.rest);
      HasKeyOfSorted(f.rest, f.key);
      InsertSorted(f.key, SortValue(f.value), SortFields(f.rest));
    }
  }

  // ----- dumps -----

  function Dumps(v: JValue, st: Style, sortKeys: bool): Str {
    Print(if sortKeys then SortValue(v) else v, st)
  }

  /** What `json.loads` gives back for a dump: sorted if it was printed sorted, surrogate halves joined. */
  lemma LoadsDumps(v: JValue, st: Style, sortKeys: bool)
    requires ValidStyle(st)
    ensures Loads(Dumps(v, st, sortKeys)) == Some(JoinValue(if sortKeys then SortValue(v) else v))
  {
    LoadsPrinted(if sortKeys then SortValue(v) else v, st);
  }

  /** No string inside `v`, key or value, holds a surrogate pair spelled as two code points. */
  predicate PairFree(v: JValue) {
    match v
    case JStr(s) => !HasPair(s)
    case JObj(f) => PairFreeFields(f)
    case _ => true
  }

  predicate PairFreeFields(f: Fields) {
    f.Field? ==> !HasPair(f.key) && PairFree(f.value) && PairFreeFields(f.rest)
  }

  lemma {:induction false} JoinValueFixedIff(v: JValue)
    ensures JoinValue(v) == v <==> PairFree(v)
    decreases v, 1
  {
    match v
    case JStr(s) => JoinFixedIff(s);
    case JObj(f) => JoinFieldsFixedIff(f);
    case _ =>
  }

  lemma {:induction false} JoinFieldsFixedIff(f: Fields)
    ensures JoinFields(f) == f <==> PairFreeFields(f)
    decreases f, 0
  {
    if f.Field? {
      JoinFixedIff(f.key);
      JoinValueFixedIff(f.value);
      JoinFieldsFixedIff(f.rest);
    }
  }

  /**
   Loading inverts dumping exactly for the values whose strings hold no high surrogate directly
   followed by a low one; every string of Unicode scalar values is among them.
   */
  lemma RoundTripIff(v: JValue, st: Style)
    requires ValidStyle(st)
    ensures Loads(Dumps(v, st, false)) == Some(v) <==> PairFree(v)
  {
    LoadsDumps(v, st, false);
    JoinValueFixedIff(v);
  }

  predicate ScalarValues(s: Str) {
    forall i :: 0 <= i < |s| ==> !IsHigh(s[i]) && !IsLow(s[i])
  }

  lemma ScalarsHaveNoPair(s: Str)
    requires ScalarValues(s)
    ensures !HasPair(s) && Join(s) == s
  {
    JoinFixedIff(s);
  }

  // ----- the printed form is printable ASCII -----

  predicate Printable(s: Str) {
    forall i :: 0 <= i < |s| ==> 0x20 <= s[i] <= 0x7E
  }

  predicate PrintableStyle(st: Style) {
    Printable(st.afterItem) && Printable(st.afterKey)
  }

  lemma PrintableConcat(a: Str, b: Str)
    requires Printable(a) && Printable(b)
    ensures Printable(a + b)
  {
  }

  lemma EscapePrintable(c: CodePoint)
    ensures Printable(Escape(c))
  {
    if c >= 0x10000 {
      PrintableConcat(UnicodeEscape(0xD800 + (c - 0x10000) / 0x400), UnicodeEscape(0xDC00 + (c - 0x10000) % 0x400));
    }
  }

  lemma {:induction false} EscapeAllPrintable(s: Str)
    ensures Printable(EscapeAll(s)) && Printable(Quote(s))
  {
    if s != [] {
      EscapePrintable(s[0]);
      EscapeAllPrintable(s[1..]);
    }
  }

  lemma {:induction false} PrintPrintable(v: JValue, st: Style)
    requires PrintableStyle(st)
    ensures Printable(Print(v, st))
    decreases v, 1
  {
    match v
    case JInt(n) => DecimalShape(if n < 0 then -n else n);
    case JStr(s) => EscapeAllPrintable(s);
    case JObj(f) =>
      if f.Field? {
        PrintMembersPrintable(f, st);
      }
    case _ =>
  }

  lemma {:induction false} PrintMembersPrintable(f: Fields, st: Style)
    requires PrintableStyle(st) && f.Field?
    ensures Printable(PrintMembers(f, st))
    decreases f, 0
  {
    EscapeAllPrintable(f.key);
    PrintPrintable(f.value, st);
    if f.rest.Field? {
      PrintMembersPrintable(f.rest, st);
      PrintableConcat([COMMA] + st.afterItem, PrintMembers(f.rest, st));
    }
    var last := if f.rest.Nil? then [RBRACE] else [COMMA] + st.afterItem + PrintMembers(f.rest, st);
    PrintableConcat(Quote(f.key) + [COLON], st.afterKey);
    PrintableConcat(Quote(f.key) + [COLON] + st.afterKey, Print(f.value, st));
    PrintableConcat(Quote(f.key) + [COLON] + st.afterKey + Print(f.value, st), last);
  }

  // ----- printing tells apart exactly what joining tells apart -----

  lemma EscapeSurrogates(high: CodePoint, low: CodePoint)
    requires IsHigh(high) && IsLow(low)
    ensures Escape(high) + Escape(low) == Escape(JoinPair(high, low))
  {
    var c := JoinPair(high, low);
    assert (c - 0x10000) / 0x400 == high - 0xD800 && (c - 0x10000) % 0x400 == low - 0xDC00;
  }

  lemma {:induction false} EscapeAllOfJoin(s: Str)
    ensures EscapeAll(Join(s)) == EscapeAll(s)
  {
    if |s| >= 2 && IsHigh(s[0]) && IsLow(s[1]) {
      EscapeAllOfJoin(s[2..]);
      EscapeSurrogates(s[0], s[1]);
      assert s[1..][1..] == s[2..];
      assert Join(s)[1..] == Join(s[2..]);
    } else if s != [] {
      EscapeAllOfJoin(s[1..]);
      assert Join(s)[1..] == Join(s[1..]);
    }
  }

  lemma {:induction false} PrintOfJoin(v: JValue, st: Style)
    ensures Print(JoinValue(v), st) == Print(v, st)
    decreases v, 1
  {
    match v
    case JStr(s) => EscapeAllOfJoin(s);
    case JObj(f) =>
      if f.Field? {
        PrintMembersOfJoin(f, st);
      }
    case _ =>
  }

  lemma {:induction false} PrintMembersOfJoin(f: Fields, st: Style)
    requires f.Field?
    ensures PrintMembers(JoinFields(f), st) == PrintMembers(f, st)
    decreases f, 0
  {
    EscapeAllOfJoin(f.key);
    PrintOfJoin(f.value, st);
    if f.rest.Field? {
      PrintMembersOfJoin(f.rest, st);
    }
  }

  /** Two values print alike exactly when they agree once surrogate halves are joined. */
  lemma PrintSeparates(v: JValue, w: JValue, st: Style)
    requires ValidStyle(st)
    ensures Print(v, st) == Print(w, st) <==> JoinValue(v) == JoinValue(w)
  {
    PrintOfJoin(v, st);
    PrintOfJoin(w, st);
    LoadsPrinted(v, st);
    LoadsPrinted(w, st);
  }

  // ----- lookups in what was loaded -----

  predicate PairFreeKeys(f: Fields) {
    f.Field? ==> !HasPair(f.key) && PairFreeKeys(f.rest)
  }

  lemma {:induction false} GetOfJoined(f: Fields, key: Str)
    requires PairFreeKeys(f)
    ensures Get(JoinFields(f), key)
            == match Get(f, key) case None => None case Some(v) => Some(JoinValue(v))
  {
    if f.Field? {
      JoinFixedIff(f.key);
      GetOfJoined(f.rest, key);
    }
  }

  lemma {:induction false} PairFreeKeysOfInsert(k: Str, v: JValue, f: Fields)
    requires PairFreeKeys(f) && !HasPair(k)
    ensures PairFreeKeys(Insert(k, v, f))
  {
    if f.Field? {
      PairFreeKeysOfInsert(k, v, f.rest);
    }
  }

  lemma {:induction false} PairFreeKeysOfSorted(f: Fields)
    requires PairFreeKeys(f)
    ensures PairFreeKeys(SortFields(f))
  {
    if f.Field? {
      PairFreeKeysOfSorted(f.rest);
      PairFreeKeysOfInsert(f.key, SortValue(f.value), SortFields(f.rest));
    }
  }

  /** What `json.loads` returns for a dumped value. */
  function Wire(v: JValue, sortKeys: bool): JValue {
    JoinValue(if sortKeys then SortValue(v) else v)
  }

  lemma GetOnWire(f: Fields, sortKeys: bool, key: Str)
    requires DistinctKeys(f) && PairFreeKeys(f)
    ensures Wire(JObj(f), sortKeys).JObj?
    ensures Get(Wire(JObj(f), sortKeys).fields, key)
            == match Get(f, key) case None => None case Some(v) => Some(Wire(v, sortKeys))
  {
    if sortKeys {
      GetOfSorted(f, key);
      PairFreeKeysOfSorted(f);
      GetOfJoined(SortFields(f), key);
    } else {
      GetOfJoined(f, key);
    }
  }

  lemma EncodedHasNoPair(data: Bytes)
    ensures Join(Base64Url.Encode(data)) == Base64Url.Encode(data)
  {
    Base64Url.EncodeShape(data);
    ScalarsHaveNoPair(Base64Url.Encode(data));
  }

  lemma WireOfLeaf(v: JValue, sortKeys: bool)
    ensures v.JStr? ==> Wire(v, sortKeys) == JStr(Join(v.s))
    ensures v.JInt? || v.JNull? ==> Wire(v, sortKeys) == v
  {
  }
}
