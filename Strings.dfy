/**
 * The .NET string and byte primitives the event record relies on:
 * `String.Replace(pattern, "")` (one left-to-right, ordinal, non-overlapping
 * scan), `BitConverter.ToString(byte[])`, and the dash-grouped
 * hexadecimal layout of event identifiers.
 */
module Strings {
  import opened Wrappers

  /** An unsigned 8-bit value, the element type of a .NET `byte[]`. */
  newtype byte = x: int | 0 <= x < 256

  const CRLF: string := "\r\n"

  // ---------------------------------------------------------------------------
  // Pattern removal
  // ---------------------------------------------------------------------------

  /** `pat` occurs in `s` starting at index `i`. */
  predicate OccursAt(s: string, pat: string, i: nat)
  {
    i + |pat| <= |s| && s[i..i + |pat|] == pat
  }

  /** `pat` occurs somewhere in `s`. */
  predicate Contains(s: string, pat: string)
  {
    exists i :: 0 <= i <= |s| && OccursAt(s, pat, i)
  }

  /**
   * `s.Replace(pat, "")`: scans `s` from the left; where `pat` starts at the
   * scan position it is skipped as a whole, otherwise one character is kept.
   * Characters produced by a deletion are not rescanned.
   */
  function RemoveAll(s: string, pat: string): (r: string)
    requires pat != ""
    ensures |r| <= |s|
    ensures |r| == |s| ==> r == s
    decreases |s|
  {
    if |s| == 0 then ""
    else if OccursAt(s, pat, 0) then RemoveAll(s[|pat|..], pat)
    else [s[0]] + RemoveAll(s[1..], pat)
  }

  /** A string without `pat` is left exactly as it is. */
  lemma {:induction false} RemoveAllAbsent(s: string, pat: string)
    requires pat != "" && !Contains(s, pat)
    ensures RemoveAll(s, pat) == s
    decreases |s|
  {
    if |s| > 0 {
      assert !OccursAt(s, pat, 0);
      forall i: nat | OccursAt(s[1..], pat, i)
        ensures OccursAt(s, pat, i + 1)
      {
        assert s[1..][i..i + |pat|] == s[i + 1..i + 1 + |pat|];
      }
      RemoveAllAbsent(s[1..], pat);
    }
  }

  /** A leading occurrence of `pat` is deleted as a whole. */
  lemma RemoveAllSkips(t: string, pat: string)
    requires pat != ""
    ensures RemoveAll(pat + t, pat) == RemoveAll(t, pat)
  {
  }

  /** The characters of `s` that do not occur in `pat`, in order. */
  function Outside(s: string, pat: string): (r: string)
    ensures forall c :: c in r ==> c in s && c !in pat
  {
    if s == [] then [] else (if s[0] in pat then [] else [s[0]]) + Outside(s[1..], pat)
  }

  lemma {:induction false} OutsideAppend(a: string, b: string, pat: string)
    ensures Outside(a + b, pat) == Outside(a, pat) + Outside(b, pat)
    decreases |a|
  {
    if a != [] {
      var head := if a[0] in pat then [] else [a[0]];
      assert (a + b)[0] == a[0];
      assert (a + b)[1..] == a[1..] + b;
      OutsideAppend(a[1..], b, pat);
      calc {
        Outside(a + b, pat);
        head + Outside(a[1..] + b, pat);
        head + (Outside(a[1..], pat) + Outside(b, pat));
        (head + Outside(a[1..], pat)) + Outside(b, pat);
        Outside(a, pat) + Outside(b, pat);
      }
    } else {
      assert a + b == b;
    }
  }

  lemma {:induction false} OutsideOfPattern(t: string, pat: string)
    requires forall c :: c in t ==> c in pat
    ensures Outside(t, pat) == []
    decreases |t|
  {
    if t != [] {
      assert t[0] in t;
      assert forall c :: c in t[1..] ==> c in t;
      OutsideOfPattern(t[1..], pat);
    }
  }

  /**
   * Removal only deletes characters of the pattern: every other character of
   * the input survives, in its original order.
   */
  lemma {:induction false} RemoveAllKeepsOtherCharacters(s: string, pat: string)
    requires pat != ""
    ensures Outside(RemoveAll(s, pat), pat) == Outside(s, pat)
    decreases |s|
  {
    if |s| > 0 {
      if OccursAt(s, pat, 0) {
        assert s == pat + s[|pat|..];
        OutsideAppend(pat, s[|pat|..], pat);
        OutsideOfPattern(pat, pat);
        RemoveAllKeepsOtherCharacters(s[|pat|..], pat);
      } else {
        assert s == [s[0]] + s[1..];
        OutsideAppend([s[0]], s[1..], pat);
        OutsideAppend([s[0]], RemoveAll(s[1..], pat), pat);
        RemoveAllKeepsOtherCharacters(s[1..], pat);
      }
    }
  }

  /**
   * One pass is not enough to clear a string of CR LF: deleting the inner
   * pair of "\r\r\n\n" joins the outer characters into a new pair.
   */
  lemma OnePassCanLeaveCrlf()
    ensures RemoveAll("\r\r\n\n", CRLF) == CRLF
    ensures Contains("\r\r\n\n", CRLF) && Contains(RemoveAll("\r\r\n\n", CRLF), CRLF)
  {
    var s := "\r\r\n\n";
    assert s[0..2][1] != CRLF[1];
    assert s[1..] == "\r\n\n";
    assert OccursAt("\r\n\n", CRLF, 0);
    assert "\r\n\n"[2..] == "\n";
    assert RemoveAll("\n", CRLF) == "\n";
    assert OccursAt(s, CRLF, 1);
    assert OccursAt(CRLF, CRLF, 0);
  }

  // ---------------------------------------------------------------------------
  // Hexadecimal text of bytes
  // ---------------------------------------------------------------------------

  predicate IsUpperHex(c: char)
  {
    '0' <= c <= '9' || 'A' <= c <= 'F'
  }

  predicate AllUpperHex(s: string)
  {
    forall i :: 0 <= i < |s| ==> IsUpperHex(s[i])
  }

  /** The upper-case digit .NET writes for a nibble. */
  function HexDigit(n: nat): (c: char)
    requires n < 16
    ensures IsUpperHex(c)
  {
    if n < 10 then ('0' as int + n) as char else ('A' as int + n - 10) as char
  }

  /** Reads one upper-case hex digit back; the inverse of HexDigit. */
  function HexValue(c: char): (n: nat)
    requires IsUpperHex(c)
    ensures n < 16 && HexDigit(n) == c
  {
    if c <= '9' then c as int - '0' as int else c as int - 'A' as int + 10
  }

  /** The two digits, high nibble first, that `BitConverter` writes for one byte. */
  function ByteHex(b: byte): (h: string)
    ensures |h| == 2 && AllUpperHex(h)
  {
    [HexDigit(b as int / 16), HexDigit(b as int % 16)]
  }

  /** `BitConverter.ToString(data)`: the bytes' digit pairs joined by '-'; "" for no bytes. */
  function BitConverterToString(data: seq<byte>): (s: string)
    ensures |s| == if |data| == 0 then 0 else 3 * |data| - 1
    ensures forall i :: 0 <= i < |s| ==> (s[i] == '-' <==> i % 3 == 2)
    ensures forall i :: 0 <= i < |s| && i % 3 != 2 ==> s[i] == ByteHex(data[i / 3])[i % 3]
  {
    if |data| == 0 then ""
    else if |data| == 1 then ByteHex(data[0])
    else ByteHex(data[0]) + "-" + BitConverterToString(data[1..])
  }

  /** The digit pairs of all bytes, back to back. */
  function HexOf(data: seq<byte>): (h: string)
    ensures |h| == 2 * |data|
    ensures AllUpperHex(h)
  {
    if |data| == 0 then "" else ByteHex(data[0]) + HexOf(data[1..])
  }

  /** Reads a string of digit pairs back into bytes. */
  function HexDecode(h: string): (data: seq<byte>)
    requires |h| % 2 == 0 && AllUpperHex(h)
    ensures |data| == |h| / 2
  {
    if |h| == 0 then []
    else [(HexValue(h[0]) * 16 + HexValue(h[1])) as byte] + HexDecode(h[2..])
  }

  /** Writing bytes as hex and reading them back gives the same bytes. */
  lemma {:induction false} HexRoundTrip(data: seq<byte>)
    ensures HexDecode(HexOf(data)) == data
    decreases |data|
  {
    if |data| > 0 {
      var b := data[0];
      var h := HexOf(data);
      assert h == ByteHex(b) + HexOf(data[1..]);
      assert h[2..] == HexOf(data[1..]);
      assert HexValue(h[0]) == b as int / 16;
      assert HexValue(h[1]) == b as int % 16;
      HexRoundTrip(data[1..]);
    }
  }

  /** Removing dashes passes over a digit pair untouched. */
  lemma RemoveDashesKeepsPair(h: string, t: string)
    requires |h| == 2 && AllUpperHex(h)
    ensures RemoveAll(h + t, "-") == h + RemoveAll(t, "-")
  {
  }

  /** `BitConverter.ToString(data).Replace("-", "")` is the plain digit string of `data`. */
  lemma {:induction false} StripDashes(data: seq<byte>)
    ensures RemoveAll(BitConverterToString(data), "-") == HexOf(data)
    decreases |data|
  {
    if |data| > 0 {
      var h := ByteHex(data[0]);
      if |data| == 1 {
        RemoveDashesKeepsPair(h, "");
        assert h + "" == h;
      } else {
        var rest := BitConverterToString(data[1..]);
        assert BitConverterToString(data) == h + ("-" + rest);
        RemoveDashesKeepsPair(h, "-" + rest);
        RemoveAllSkips(rest, "-");
        StripDashes(data[1..]);
      }
    }
  }

  // ---------------------------------------------------------------------------
  // The 8-4-4-4-12 identifier layout
  // ---------------------------------------------------------------------------

  /** The positions of the four group separators. */
  predicate IsDashPosition(i: int)
  {
    i == 8 || i == 13 || i == 18 || i == 23
  }

  /** 36 characters: '-' at 8, 13, 18 and 23, an upper-case hex digit everywhere else. */
  predicate IsUidShape(uid: string)
  {
    |uid| == 36 &&
    forall i :: 0 <= i < 36 ==> if IsDashPosition(i) then uid[i] == '-' else IsUpperHex(uid[i])
  }

  /** The 32 digits of an identifier, groups joined without their separators. */
  function UidDigits(uid: string): (t: string)
    requires |uid| == 36
    ensures |t| == 32
  {
    uid[..8] + uid[9..13] + uid[14..18] + uid[19..23] + uid[24..]
  }

  /** Reads the 16 bytes back out of a well-formed identifier. */
  function ParseUid(uid: string): (r: Option<seq<byte>>)
    ensures r.Some? <==> IsUidShape(uid)
    ensures r.Some? ==> |r.value| == 16
  {
    if IsUidShape(uid) then
      var t := UidDigits(uid);
      assert AllUpperHex(t) by {
        forall j | 0 <= j < 32 ensures IsUpperHex(t[j]) {
          if j < 8 { assert t[j] == uid[j]; }
          else if j < 12 { assert t[j] == uid[j + 1]; }
          else if j < 16 { assert t[j] == uid[j + 2]; }
          else if j < 20 { assert t[j] == uid[j + 3]; }
          else { assert t[j] == uid[j + 4]; }
        }
      }
      Some(HexDecode(t))
    else
      None
  }

  /**
   * The five `Substring` groups of a 32-digit string joined by '-':
   * (0, 8), (8, 4), (12, 4), (16, 4) and (20, 12).
   */
  function Grouped(t: string): (g: string)
    requires |t| == 32
    ensures |g| == 36
    ensures g[8] == '-' && g[13] == '-' && g[18] == '-' && g[23] == '-'
    ensures UidDigits(g) == t
  {
    var g := t[0..8] + "-" + t[8..12] + "-" + t[12..16] + "-" + t[16..20] + "-" + t[20..32];
    assert g[..8] == t[0..8];
    assert g[9..13] == t[8..12];
    assert g[14..18] == t[12..16];
    assert g[19..23] == t[16..20];
    assert g[24..] == t[20..32];
    assert t == t[0..8] + t[8..12] + t[12..16] + t[16..20] + t[20..32];
    g
  }

  /** Grouping 32 hex digits yields a well-formed identifier whose digits are those 32. */
  lemma GroupedRoundTrip(t: string)
    requires |t| == 32 && AllUpperHex(t)
    ensures IsUidShape(Grouped(t))
    ensures UidDigits(Grouped(t)) == t
  {
    var u := Grouped(t);
    assert |u| == 36;
    forall i | 0 <= i < 36
      ensures if IsDashPosition(i) then u[i] == '-' else IsUpperHex(u[i])
    {
      if i < 8 { assert u[i] == t[i]; }
      else if i == 8 { }
      else if i < 13 { assert u[i] == t[i - 1]; }
      else if i == 13 { }
      else if i < 18 { assert u[i] == t[i - 2]; }
      else if i == 18 { }
      else if i < 23 { assert u[i] == t[i - 3]; }
      else if i == 23 { }
      else { assert u[i] == t[i - 4]; }
    }
  }

}
