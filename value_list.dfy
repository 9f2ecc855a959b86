/** The comma-separated list of residues inside `[...]` in the revalidators'
    `List.Mem` propositions and facts, turned into integers the way
    diophantine1/revalidators.py does it:
    `[int(s.strip()) for s in text.split(",") if s.strip()]`.
    A segment that is not blank after stripping and is not a run of digits
    (for instance "1 2") makes `int` raise ValueError; that is `None` here. */
module ValueList {
  import opened Wrappers

  /** The ASCII characters Python's str.strip() removes: tab, line feed,
      vertical tab, form feed, carriage return (9 .. 13), the four
      separators 0x1C .. 0x1F, and the space (32). */
  predicate IsSpace(ch: char)
  {
    '\t' <= ch <= '\r' || '\U{001C}' <= ch <= ' '
  }

  predicate IsDigit(ch: char)
  {
    '0' <= ch <= '9'
  }

  // ------------------------------------------------------------ str.split

  /** Python's `s.split(",")`: the pieces between commas, empty ones kept. */
  function Split(s: string): (parts: seq<string>)
    ensures |parts| >= 1
    ensures forall i :: 0 <= i < |parts| ==> ',' !in parts[i]
  {
    if |s| == 0 then [""]
    else if s[0] == ',' then [""] + Split(s[1..])
    else
      var rest := Split(s[1..]);
      [[s[0]] + rest[0]] + rest[1..]
  }

  /** Python's `",".join(parts)`. */
  function Join(parts: seq<string>): string
  {
    if |parts| == 0 then ""
    else if |parts| == 1 then parts[0]
    else parts[0] + "," + Join(parts[1..])
  }

  /** Splitting on commas loses nothing: joining the pieces gives the text back. */
  lemma {:induction false} JoinSplit(s: string)
    ensures Join(Split(s)) == s
  {
    if |s| > 0 {
      JoinSplit(s[1..]);
      var rest := Split(s[1..]);
      if s[0] == ',' {
        assert s == [','] + s[1..];
      } else if |rest| == 1 {
        assert s == [s[0]] + s[1..];
      } else {
        assert Join(rest) == rest[0] + "," + Join(rest[1..]);
        assert [[s[0]] + rest[0]] + rest[1..] == [[s[0]] + rest[0]] + rest[1..];
        assert s == [s[0]] + (rest[0] + "," + Join(rest[1..]));
      }
    }
  }

  /** Text without a comma followed by a comma and more text splits into the
      text and the pieces of the rest. */
  lemma {:induction false} SplitAfterPiece(p: string, rest: string)
    requires ',' !in p
    ensures Split(p + "," + rest) == [p] + Split(rest)
  {
    if |p| == 0 {
      assert p + "," + rest == [','] + rest;
      assert (p + "," + rest)[1..] == rest;
    } else {
      assert (p + "," + rest)[1..] == p[1..] + "," + rest;
      SplitAfterPiece(p[1..], rest);
      assert [p[0]] + p[1..] == p;
    }
  }

  /** Text without a comma is a single piece. */
  lemma {:induction false} SplitWithoutComma(p: string)
    requires ',' !in p
    ensures Split(p) == [p]
  {
    if |p| > 0 {
      SplitWithoutComma(p[1..]);
      assert [p[0]] + p[1..] == p;
    }
  }

  // ------------------------------------------------------------ str.strip

  /** Where the leading whitespace of s, scanned from index i on, ends. */
  function LeadEnd(s: string, i: nat): (e: nat)
    requires i <= |s|
    ensures i <= e <= |s|
    ensures forall k :: i <= k < e ==> IsSpace(s[k])
    ensures e == |s| || !IsSpace(s[e])
    decreases |s| - i
  {
    if i < |s| && IsSpace(s[i]) then LeadEnd(s, i + 1) else i
  }

  /** Where the trailing whitespace of s[..j] begins, looking no further
      left than lo. */
  function TrailStart(s: string, lo: nat, j: nat): (b: nat)
    requires lo <= j <= |s|
    ensures lo <= b <= j
    ensures forall k :: b <= k < j ==> IsSpace(s[k])
    ensures b == lo || !IsSpace(s[b - 1])
    decreases j - lo
  {
    if lo < j && IsSpace(s[j - 1]) then TrailStart(s, lo, j - 1) else j
  }

  /** Python's `s.strip()` for ASCII whitespace. */
  function Strip(s: string): (r: string)
    ensures |r| <= |s|
    ensures |r| == 0 || (!IsSpace(r[0]) && !IsSpace(r[|r| - 1]))
  {
    var i := LeadEnd(s, 0);
    s[i..TrailStart(s, i, |s|)]
  }

  /** `s.strip()` keeps the text between the leading and the trailing
      whitespace as it is, and removes nothing else: s is blanks, then the
      stripped text, then blanks. */
  lemma StripKeepsMiddle(s: string)
    ensures var i := LeadEnd(s, 0); var j := TrailStart(s, i, |s|);
      0 <= i <= j <= |s| && Strip(s) == s[i..j] &&
      (forall k :: 0 <= k < i ==> IsSpace(s[k])) && (forall k :: j <= k < |s| ==> IsSpace(s[k]))
  {
  }

  // ---------------------------------------------------------- int(digits)

  function DigitValue(ch: char): nat
    requires IsDigit(ch)
  {
    (ch as int) - ('0' as int)
  }

  predicate AllDigits(s: string)
  {
    forall i :: 0 <= i < |s| ==> IsDigit(s[i])
  }

  /** The number a run of decimal digits denotes. */
  function DigitsValue(s: string): nat
    requires AllDigits(s)
  {
    if |s| == 0 then 0 else DigitsValue(s[..|s| - 1]) * 10 + DigitValue(s[|s| - 1])
  }

  /** Python's `int(s)` on an already stripped segment: digits only, at least one. */
  function ParseInt(s: string): (r: Option<nat>)
    ensures r.Some? <==> |s| >= 1 && AllDigits(s)
  {
    if |s| >= 1 && AllDigits(s) then Some(DigitsValue(s)) else None
  }

  /** The decimal text of n, as Python's `str(n)` writes it. */
  function Decimal(n: nat): (s: string)
    ensures |s| >= 1 && AllDigits(s)
  {
    if n < 10 then [('0' as int + n) as char] else Decimal(n / 10) + [('0' as int + n % 10) as char]
  }

  /** Reading back the decimal text of n gives n. */
  lemma {:induction false} DecimalRoundTrip(n: nat)
    ensures ParseInt(Decimal(n)) == Some(n)
  {
    var s := Decimal(n);
    if n >= 10 {
      DecimalRoundTrip(n / 10);
      assert s[..|s| - 1] == Decimal(n / 10);
      assert DigitValue(s[|s| - 1]) == n % 10;
      assert DigitsValue(s) == (n / 10) * 10 + n % 10;
    } else {
      assert DigitValue(s[0]) == n;
      assert s[..0] == [];
    }
  }

  // ------------------------------------------------------- the whole list

  /** The segments that survive the `if s.strip()` filter, stripped. */
  function NonBlank(parts: seq<string>): (kept: seq<string>)
    ensures |kept| <= |parts|
    ensures "" !in kept
  {
    if |parts| == 0 then []
    else if Strip(parts[0]) == "" then NonBlank(parts[1..])
    else [Strip(parts[0])] + NonBlank(parts[1..])
  }

  /** The kept segments are exactly the stripped pieces that are not blank. */
  lemma {:induction false} NonBlankMembers(parts: seq<string>)
    ensures forall k :: k in NonBlank(parts) <==> exists p :: p in parts && Strip(p) != "" && k == Strip(p)
  {
    if |parts| > 0 {
      NonBlankMembers(parts[1..]);
      assert parts == [parts[0]] + parts[1..];
      var head, rest := Strip(parts[0]), NonBlank(parts[1..]);
      forall k ensures k in NonBlank(parts) <==> exists p :: p in parts && Strip(p) != "" && k == Strip(p) {
        if head == "" {
          assert NonBlank(parts) == rest;
        } else {
          assert NonBlank(parts) == [head] + rest;
        }
      }
    }
  }

  /** `int` applied to every surviving segment; None if any one raises. */
  function ParseAll(segments: seq<string>): (r: Option<seq<nat>>)
    ensures r.Some? <==> forall i :: 0 <= i < |segments| ==> ParseInt(segments[i]).Some?
    ensures r.Some? ==> |r.value| == |segments|
    ensures r.Some? ==> forall i :: 0 <= i < |segments| ==> Some(r.value[i]) == ParseInt(segments[i])
  {
    if |segments| == 0 then Some([])
    else
      match (ParseInt(segments[0]), ParseAll(segments[1..]))
      case (Some(v), Some(vs)) => Some([v] + vs)
      case _ => None
  }

  /** `[int(s.strip()) for s in text.split(",") if s.strip()]`. */
  function ParseValueList(text: string): (r: Option<seq<nat>>)
    ensures r.Some? <==> forall p :: p in Split(text) ==> Strip(p) == "" || AllDigits(Strip(p))
    ensures r.Some? ==> |r.value| <= |Split(text)|
  {
    PiecesParse(Split(text));
    ParseAll(NonBlank(Split(text)))
  }

  /** `int` succeeds on every kept piece exactly when every piece is blank
      or a run of digits once stripped. */
  lemma {:induction false} PiecesParse(parts: seq<string>)
    ensures ParseAll(NonBlank(parts)).Some? <==> forall p :: p in parts ==> Strip(p) == "" || AllDigits(Strip(p))
  {
    if |parts| > 0 {
      PiecesParse(parts[1..]);
      assert parts == [parts[0]] + parts[1..];
      var head, rest := Strip(parts[0]), NonBlank(parts[1..]);
      if head != "" {
        assert ([head] + rest)[0] == head && ([head] + rest)[1..] == rest;
      }
    }
  }

  /** How a list of residues is written: "v1, v2, ..., vn". */
  function Format(vs: seq<nat>): string
  {
    if |vs| == 0 then ""
    else if |vs| == 1 then Decimal(vs[0])
    else Decimal(vs[0]) + ", " + Format(vs[1..])
  }

  /** The decimal texts of a list of residues. */
  function Decimals(vs: seq<nat>): (ds: seq<string>)
    ensures |ds| == |vs|
  {
    if |vs| == 0 then [] else [Decimal(vs[0])] + Decimals(vs[1..])
  }

  /** Reading back a written list of residues gives the same residues. */
  lemma FormatRoundTrip(vs: seq<nat>)
    ensures ParseValueList(Format(vs)) == Some(vs)
  {
    FormatPieces(vs, "");
    assert "" + Format(vs) == Format(vs);
    ParseDecimals(vs);
  }

  lemma {:induction false} ParseDecimals(vs: seq<nat>)
    ensures ParseAll(Decimals(vs)) == Some(vs)
  {
    if |vs| > 0 {
      ParseDecimals(vs[1..]);
      DecimalRoundTrip(vs[0]);
      assert [vs[0]] + vs[1..] == vs;
    }
  }

  /** With `lead` (blank) in front, the pieces of a written list, once
      stripped and filtered, are the decimal texts of its entries. */
  lemma {:induction false} FormatPieces(vs: seq<nat>, lead: string)
    requires forall i :: 0 <= i < |lead| ==> IsSpace(lead[i])
    ensures NonBlank(Split(lead + Format(vs))) == Decimals(vs)
  {
    if |vs| == 0 {
      assert lead + Format(vs) == lead;
      SplitWithoutComma(lead);
      StripBlank(lead);
    } else if |vs| == 1 {
      LastPiece(lead, vs[0]);
      assert lead + Format(vs) == lead + Decimal(vs[0]);
    } else {
      var tail := " " + Format(vs[1..]);
      assert Format(vs) == Decimal(vs[0]) + ", " + Format(vs[1..]);
      assert lead + Format(vs) == lead + Decimal(vs[0]) + "," + tail;
      FirstPiece(lead, vs[0], tail);
      FormatPieces(vs[1..], " ");
    }
  }

  /** The last written entry, after its blank lead, is one kept piece. */
  lemma LastPiece(lead: string, n: nat)
    requires forall i :: 0 <= i < |lead| ==> IsSpace(lead[i])
    ensures NonBlank(Split(lead + Decimal(n))) == [Decimal(n)]
  {
    NoCommaInDecimal(n);
    assert ',' !in lead + Decimal(n);
    SplitWithoutComma(lead + Decimal(n));
    StripAround(lead, n);
    NonBlankCons(lead + Decimal(n), []);
  }

  /** An entry written before a comma becomes the first kept piece. */
  lemma FirstPiece(lead: string, n: nat, tail: string)
    requires forall i :: 0 <= i < |lead| ==> IsSpace(lead[i])
    ensures NonBlank(Split(lead + Decimal(n) + "," + tail)) == [Decimal(n)] + NonBlank(Split(tail))
  {
    var head := lead + Decimal(n);
    NoCommaInDecimal(n);
    assert ',' !in head;
    StripAround(lead, n);
    SplitAfterPiece(head, tail);
    NonBlankCons(head, Split(tail));
  }

  /** A piece that is not blank once stripped survives the filter in front. */
  lemma NonBlankCons(head: string, rest: seq<string>)
    requires Strip(head) != ""
    ensures NonBlank([head] + rest) == [Strip(head)] + NonBlank(rest)
  {
    assert ([head] + rest)[1..] == rest;
  }

  lemma NoCommaInDecimal(n: nat)
    ensures ',' !in Decimal(n)
  {
  }

  /** Blank text strips to nothing. */
  lemma StripBlank(s: string)
    requires forall i :: 0 <= i < |s| ==> IsSpace(s[i])
    ensures Strip(s) == ""
  {
    assert LeadEnd(s, 0) == |s|;
  }

  /** Leading blanks before a decimal text are stripped away. */
  lemma StripAround(lead: string, n: nat)
    requires forall i :: 0 <= i < |lead| ==> IsSpace(lead[i])
    ensures Strip(lead + Decimal(n)) == Decimal(n)
  {
    var d := Decimal(n);
    var s := lead + d;
    assert !IsSpace(s[|lead|]) by { assert s[|lead|] == d[0]; }
    var i := LeadEnd(s, 0);
    assert forall k :: 0 <= k < |lead| ==> s[k] == lead[k];
    assert i == |lead|;
    assert !IsSpace(s[|s| - 1]) by { assert s[|s| - 1] == d[|d| - 1]; }
    assert TrailStart(s, i, |s|) == |s|;
    assert s[|lead|..] == d;
  }
}
