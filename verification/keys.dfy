/**
 Session-state keys of the persona form. A key joins a field name and a
 slot index with an underscore (`name_0`, `dob_3`, ...); the sync step reads
 the index back by splitting the key on underscores, taking the last piece
 and converting it to an integer.
 */
module Keys {
  import opened Wrappers

  /** The four inputs collected for every persona slot. */
  datatype Field = Name | Dob | Profession | Description

  /** The separator between a field name and a slot index. */
  const Sep: char := '_'

  /** The field name as it appears in a session-state key. */
  function FieldName(f: Field): (s: string)
    ensures |s| > 0 && Sep !in s
  {
    match f
    case Name => "name"
    case Dob => "dob"
    case Profession => "profession"
    case Description => "description"
  }

  /* ---------------- splitting on a separator ---------------- */

  /** `s.split(sep)`: the pieces between separators; never empty, and no
      piece contains the separator. */
  function Split(s: string, sep: char): (parts: seq<string>)
    ensures |parts| >= 1
    ensures forall k :: 0 <= k < |parts| ==> sep !in parts[k]
  {
    if |s| == 0 then [""]
    else
      var rest := Split(s[1..], sep);
      if s[0] == sep then [""] + rest
      else [[s[0]] + rest[0]] + rest[1..]
  }

  /** `sep.join(parts)`, the inverse of Split. */
  function Join(parts: seq<string>, sep: char): string
    requires |parts| >= 1
  {
    if |parts| == 1 then parts[0] else parts[0] + [sep] + Join(parts[1..], sep)
  }

  function Last<T>(xs: seq<T>): T
    requires |xs| >= 1
  {
    xs[|xs| - 1]
  }

  /** Joining the pieces of a split gives back the original string. */
  lemma {:induction false} JoinSplit(s: string, sep: char)
    ensures Join(Split(s, sep), sep) == s
  {
    if |s| > 0 {
      var rest := Split(s[1..], sep);
      JoinSplit(s[1..], sep);
      if s[0] == sep {
        assert ([""] + rest)[1..] == rest;
      } else {
        var parts := [[s[0]] + rest[0]] + rest[1..];
        if |rest| > 1 {
          assert parts[1..] == rest[1..];
        }
        assert [s[0]] + s[1..] == s;
      }
    }
  }

  /** A string without separators splits into itself alone. */
  lemma {:induction false} SplitNoSep(s: string, sep: char)
    requires sep !in s
    ensures Split(s, sep) == [s]
  {
    if |s| > 0 {
      assert s[0] in s;
      assert forall c :: c in s[1..] ==> c in s;
      SplitNoSep(s[1..], sep);
      assert [s[0]] + s[1..] == s;
    }
  }

  /** A separator-free prefix followed by a separator becomes the first piece. */
  lemma {:induction false} SplitPrefix(a: string, b: string, sep: char)
    requires sep !in a
    ensures Split(a + [sep] + b, sep) == [a] + Split(b, sep)
  {
    var s := a + [sep] + b;
    if |a| == 0 {
      assert s == [sep] + b;
      assert s[1..] == b;
    } else {
      assert s[0] == a[0];
      assert s[1..] == a[1..] + [sep] + b;
      assert forall c :: c in a[1..] ==> c in a;
      SplitPrefix(a[1..], b, sep);
      assert [a[0]] + a[1..] == a;
    }
  }

  /* ---------------- decimal integers ---------------- */

  predicate IsDigit(c: char) {
    '0' <= c <= '9'
  }

  predicate AllDigits(s: string) {
    forall k :: 0 <= k < |s| ==> IsDigit(s[k])
  }

  function DigitChar(d: nat): (c: char)
    requires d < 10
    ensures IsDigit(c) && c as int - '0' as int == d
  {
    ('0' as int + d) as char
  }

  /** The value of a string of decimal digits, most significant first. */
  function DigitsValue(s: string): nat
    requires AllDigits(s)
  {
    if |s| == 0 then 0
    else DigitsValue(s[..|s| - 1]) * 10 + (s[|s| - 1] as int - '0' as int)
  }

  /** `str(n)` for a natural number: non-empty, decimal digits only, hence
      free of separators. */
  function NatToString(n: nat): (s: string)
    ensures |s| >= 1 && AllDigits(s) && Sep !in s
  {
    if n < 10 then [DigitChar(n)] else NatToString(n / 10) + [DigitChar(n % 10)]
  }

  /** `int(s)` restricted to plain decimal digits; None where Python raises. */
  function ParseNat(s: string): Option<nat> {
    if |s| > 0 && AllDigits(s) then Some(DigitsValue(s)) else None
  }

  /** Parsing the decimal rendering of a number gives the number back. */
  lemma {:induction false} ParseNatRoundTrip(n: nat)
    ensures ParseNat(NatToString(n)) == Some(n)
  {
    var s := NatToString(n);
    if n >= 10 {
      ParseNatRoundTrip(n / 10);
      assert s[..|s| - 1] == NatToString(n / 10);
    } else {
      assert s[..|s| - 1] == [];
      assert DigitsValue(s) == DigitsValue([]) * 10 + n;
    }
  }

  /* ---------------- keys ---------------- */

  /** The key `f"{field}_{i}"` under which a slot's field is stored. */
  function MakeKey(f: Field, i: nat): string {
    FieldName(f) + [Sep] + NatToString(i)
  }

  /** A key is its field name, one underscore, and the decimal index; that
      underscore is the only one in the key. */
  lemma KeyLayout(f: Field, i: nat)
    ensures var k := MakeKey(f, i);
            && |k| > |FieldName(f)|
            && k[..|FieldName(f)|] == FieldName(f) && k[|FieldName(f)|] == Sep
            && k[|FieldName(f)| + 1..] == NatToString(i)
            && forall j :: 0 <= j < |k| && k[j] == Sep ==> j == |FieldName(f)|
  {
  }

  /** The index read back from a key: `int(key.split("_")[-1])`. A key
      without an underscore is converted whole. */
  function ParseIndex(key: string): (r: Option<nat>)
    ensures Sep !in key ==> r == ParseNat(key)
  {
    var parts := Split(key, Sep);
    if Sep !in key then SplitNoSep(key, Sep); ParseNat(Last(parts))
    else ParseNat(Last(parts))
  }

  /** Whatever precedes the last underscore, the text after it is what
      `split("_")[-1]` returns; there are always at least two pieces. */
  lemma {:induction false} SplitLastPiece(p: string, q: string, sep: char)
    requires sep !in q
    ensures |Split(p + [sep] + q, sep)| >= 2
    ensures Last(Split(p + [sep] + q, sep)) == q
  {
    var s := p + [sep] + q;
    if |p| == 0 {
      assert s == [sep] + q;
      assert s[1..] == q;
      SplitNoSep(q, sep);
    } else {
      assert s[1..] == p[1..] + [sep] + q;
      SplitLastPiece(p[1..], q, sep);
    }
  }

  /** The index of a key is the integer after its last underscore. */
  lemma ParseIndexSuffix(p: string, q: string)
    requires Sep !in q
    ensures ParseIndex(p + [Sep] + q) == ParseNat(q)
  {
    SplitLastPiece(p, q, Sep);
  }

  /** Splitting a key gives exactly its field name and its index digits. */
  lemma KeySplit(f: Field, i: nat)
    ensures Split(MakeKey(f, i), Sep) == [FieldName(f), NatToString(i)]
  {
    SplitPrefix(FieldName(f), NatToString(i), Sep);
    SplitNoSep(NatToString(i), Sep);
  }

  /** The suffix parse recovers the index a key was built from. */
  lemma KeyIndexRoundTrip(f: Field, i: nat)
    ensures ParseIndex(MakeKey(f, i)) == Some(i)
  {
    KeySplit(f, i);
    ParseNatRoundTrip(i);
  }

  /** Distinct (field, index) pairs give distinct keys, and conversely. */
  lemma MakeKeyInjective(f: Field, i: nat, g: Field, j: nat)
    ensures MakeKey(f, i) == MakeKey(g, j) <==> f == g && i == j
  {
    if MakeKey(f, i) == MakeKey(g, j) {
      KeySplit(f, i);
      KeySplit(g, j);
      assert FieldName(f) == FieldName(g);
      KeyIndexRoundTrip(f, i);
      KeyIndexRoundTrip(g, j);
    }
  }
}
