/**
 * Reading the address range out of one line of a process memory map, the
 * way the script does it: `line.split()[0]` takes the first field,
 * `.split('-')` cuts it at each dash, and `int(part, 16)` reads the first two
 * parts as hexadecimal numbers.
 */
module MapsParsing {
  import opened Wrappers

  /** The characters Python's `str.split()` separates fields on (`str.isspace`). */
  predicate IsSpace(c: char) {
    ('\t' <= c <= '\r') || ('\U{1c}' <= c <= ' ') || c == '\U{85}' || c == '\U{a0}'
    || c == '\U{1680}' || ('\U{2000}' <= c <= '\U{200a}') || c == '\U{2028}' || c == '\U{2029}'
    || c == '\U{202f}' || c == '\U{205f}' || c == '\U{3000}'
  }

  /** The first index at or after `i` that does not hold whitespace. */
  function SkipSpace(s: string, i: nat): (j: nat)
    requires i <= |s|
    ensures i <= j <= |s|
    ensures forall k :: i <= k < j ==> IsSpace(s[k])
    ensures j < |s| ==> !IsSpace(s[j])
    decreases |s| - i
  {
    if i == |s| || !IsSpace(s[i]) then i else SkipSpace(s, i + 1)
  }

  /** The first index at or after `i` that holds whitespace, or `|s|`. */
  function TokenEnd(s: string, i: nat): (j: nat)
    requires i <= |s|
    ensures i <= j <= |s|
    ensures forall k :: i <= k < j ==> !IsSpace(s[k])
    ensures j < |s| ==> IsSpace(s[j])
    decreases |s| - i
  {
    if i == |s| || IsSpace(s[i]) then i else TokenEnd(s, i + 1)
  }

  /**
   * `line.split()[0]`: the first maximal run of non-whitespace characters.
   * It is empty exactly when the line is all whitespace, the case where
   * Python raises IndexError instead.
   */
  function FirstField(line: string): (f: string)
    ensures forall k :: 0 <= k < |f| ==> !IsSpace(f[k])
    ensures f == [] <==> forall k :: 0 <= k < |line| ==> IsSpace(line[k])
  {
    var i := SkipSpace(line, 0);
    var j := TokenEnd(line, i);
    assert forall k :: 0 <= k < j - i ==> line[i..j][k] == line[i + k];
    line[i..j]
  }

  /** A line that starts with a field followed by whitespace has that field first. */
  lemma FirstFieldOfLeadingToken(f: string, rest: string)
    requires f != [] && forall k :: 0 <= k < |f| ==> !IsSpace(f[k])
    requires rest != [] && IsSpace(rest[0])
    ensures FirstField(f + rest) == f
  {
    var line := f + rest;
    assert line[0] == f[0];
    assert forall k :: 0 <= k < |f| ==> line[k] == f[k];
    assert line[|f|] == rest[0];
    assert SkipSpace(line, 0) == 0;
    assert TokenEnd(line, 0) == |f|;
    assert line[..|f|] == f;
  }

  /** `parts` joined back together with `sep` between consecutive parts. */
  function Join(parts: seq<string>, sep: char): string
    requires |parts| >= 1
    decreases |parts|
  {
    if |parts| == 1 then parts[0] else parts[0] + [sep] + Join(parts[1..], sep)
  }

  /** The index of the first `c` in `s`. */
  function IndexOf(s: string, c: char): (i: nat)
    requires c in s
    ensures i < |s| && s[i] == c && c !in s[..i]
  {
    if s[0] == c then 0
    else
      assert s == [s[0]] + s[1..];
      var i := 1 + IndexOf(s[1..], c);
      assert s[..i] == [s[0]] + s[1..][..i - 1];
      i
  }

  lemma IndexOfIs(s: string, c: char, i: nat)
    requires i < |s| && s[i] == c && c !in s[..i]
    ensures IndexOf(s, c) == i
  {
  }

  /**
   * `s.split(sep)`: the pieces between separators, empty pieces kept, so
   * that there is always one more piece than there are separators.
   */
  function Split(s: string, sep: char): (parts: seq<string>)
    ensures |parts| >= 1
    ensures forall p :: p in parts ==> sep !in p
    ensures Join(parts, sep) == s
    ensures |parts| >= 2 <==> sep in s
    decreases |s|
  {
    if sep !in s then [s]
    else
      var i := IndexOf(s, sep);
      var parts := [s[..i]] + Split(s[i + 1..], sep);
      assert parts[1..] == Split(s[i + 1..], sep);
      assert s == s[..i] + [sep] + s[i + 1..];
      parts
  }

  /** The first part of a split is the text before the first separator, the second the text up to the next. */
  lemma SplitFirstParts(s: string, sep: char)
    ensures sep !in s ==> Split(s, sep) == [s]
    ensures sep in s ==>
      var g := s[IndexOf(s, sep) + 1..];
      Split(s, sep)[0] == s[..IndexOf(s, sep)] &&
      Split(s, sep)[1] == if sep in g then g[..IndexOf(g, sep)] else g
  {
    if sep in s {
      var g := s[IndexOf(s, sep) + 1..];
      assert Split(s, sep)[1..] == Split(g, sep);
    }
  }

  /** Splitting undoes joining, when no part holds the separator. */
  lemma {:induction false} SplitJoin(parts: seq<string>, sep: char)
    requires |parts| >= 1
    requires forall p :: p in parts ==> sep !in p
    ensures Split(Join(parts, sep), sep) == parts
    decreases |parts|
  {
    if |parts| > 1 {
      var s := Join(parts, sep);
      var tail := Join(parts[1..], sep);
      assert s == parts[0] + [sep] + tail;
      assert s[|parts[0]|] == sep && s[..|parts[0]|] == parts[0];
      assert s[..|parts[0]|] == parts[0];
      IndexOfIs(s, sep, |parts[0]|);
      assert s[|parts[0]| + 1..] == tail;
      SplitJoin(parts[1..], sep);
    }
  }

  predicate IsHexDigit(c: char) {
    '0' <= c <= '9' || 'a' <= c <= 'f' || 'A' <= c <= 'F'
  }

  function HexDigitValue(c: char): (v: nat)
    requires IsHexDigit(c)
    ensures v < 16
  {
    if '0' <= c <= '9' then c as nat - '0' as nat
    else if 'a' <= c <= 'f' then c as nat - 'a' as nat + 10
    else c as nat - 'A' as nat + 10
  }

  predicate IsGroupChar(c: char) {
    IsHexDigit(c) || c == '_'
  }

  /**
   * Digits with single underscores between them, as `int()` admits since
   * PEP 515: no leading, trailing or doubled underscore.
   */
  predicate IsDigitGroups(s: string)
    ensures IsDigitGroups(s) ==> forall i :: 0 <= i < |s| ==> IsGroupChar(s[i])
  {
    |s| > 0 &&
    forall i :: 0 <= i < |s| ==>
      IsGroupChar(s[i]) && (s[i] == '_' ==> 0 < i && i + 1 < |s| && IsHexDigit(s[i + 1]))
  }

  /** The value of a string of hex digits and underscores, underscores ignored. */
  function GroupsValue(s: string): nat
    requires forall i :: 0 <= i < |s| ==> IsGroupChar(s[i])
    decreases |s|
  {
    if s == [] then 0
    else
      var last := s[|s| - 1];
      assert IsGroupChar(last);
      if last == '_' then GroupsValue(s[..|s| - 1])
      else 16 * GroupsValue(s[..|s| - 1]) + HexDigitValue(last)
  }

  /** A non-empty string of hexadecimal digits and nothing else. */
  predicate IsHexNumeral(s: string) {
    |s| > 0 && forall i :: 0 <= i < |s| ==> IsHexDigit(s[i])
  }

  /**
   * `int(s, 16)`: an optional `+`, an optional `0x`/`0X` prefix (which may be
   * followed by one underscore), then digit groups; anything else is the
   * ValueError Python raises, here `None`. A `-` sign is refused: the parts
   * this is applied to come from a split on `-` and cannot hold one. A plain
   * numeral, leading zeros included, reads as its digits' value.
   */
  function ParseHex(s: string): (r: Option<nat>)
    ensures IsHexNumeral(s) ==> r == Some(GroupsValue(s))
    ensures |s| < 1 ==> r == None
  {
    var t := if |s| > 0 && s[0] == '+' then s[1..] else s;
    if |t| >= 2 && t[0] == '0' && (t[1] == 'x' || t[1] == 'X') then
      var u := t[2..];
      var v := if |u| > 0 && u[0] == '_' then u[1..] else u;
      if IsDigitGroups(v) then Some(GroupsValue(v)) else None
    else if IsDigitGroups(t) then Some(GroupsValue(t))
    else None
  }

  function HexDigitChar(d: nat): (c: char)
    requires d < 16
    ensures IsHexDigit(c) && HexDigitValue(c) == d
  {
    if d < 10 then ('0' as nat + d) as char else ('a' as nat + d - 10) as char
  }

  /** `format(n, 'x')`: the shortest lower-case hexadecimal numeral of `n`. */
  function ToHex(n: nat): (s: string)
    ensures IsHexNumeral(s)
    decreases n
  {
    if n < 16 then [HexDigitChar(n)] else ToHex(n / 16) + [HexDigitChar(n % 16)]
  }

  lemma {:induction false} GroupsValueToHex(n: nat)
    ensures GroupsValue(ToHex(n)) == n
    decreases n
  {
    if n >= 16 {
      var s := ToHex(n);
      assert s[..|s| - 1] == ToHex(n / 16);
      GroupsValueToHex(n / 16);
    } else {
      assert ToHex(n)[..0] == [];
    }
  }

  /** Parsing reads back any numeral `ToHex` writes. */
  lemma ParseHexToHex(n: nat)
    ensures ParseHex(ToHex(n)) == Some(n)
  {
    GroupsValueToHex(n);
  }

  /** `k` zero digits. */
  function ZeroDigits(k: nat): (z: string)
    ensures |z| == k && forall i :: 0 <= i < k ==> z[i] == '0'
  {
    seq(k, _ => '0')
  }

  lemma {:induction false} ZeroDigitsValue(k: nat)
    ensures GroupsValue(ZeroDigits(k)) == 0
    decreases k
  {
    if k > 0 {
      assert ZeroDigits(k)[..k - 1] == ZeroDigits(k - 1);
      ZeroDigitsValue(k - 1);
    }
  }

  /** Leading zeros do not change the value of a numeral. */
  lemma {:induction false} GroupsValueLeadingZeros(k: nat, s: string)
    requires forall i :: 0 <= i < |s| ==> IsGroupChar(s[i])
    ensures forall i :: 0 <= i < k + |s| ==> IsGroupChar((ZeroDigits(k) + s)[i])
    ensures GroupsValue(ZeroDigits(k) + s) == GroupsValue(s)
    decreases |s|
  {
    var z := ZeroDigits(k) + s;
    if s == [] {
      assert z == ZeroDigits(k);
      ZeroDigitsValue(k);
    } else {
      assert z[..|z| - 1] == ZeroDigits(k) + s[..|s| - 1];
      GroupsValueLeadingZeros(k, s[..|s| - 1]);
    }
  }

  /**
   * `%08lx`, the form in which the kernel writes the addresses of a map
   * line: the numeral of `n`, padded with zeros to at least eight digits.
   */
  function FormatAddress(n: nat): (s: string)
    ensures IsHexNumeral(s) && |s| >= 8
  {
    var h := ToHex(n);
    if |h| < 8 then ZeroDigits(8 - |h|) + h else h
  }

  /** Parsing reads back every address the kernel writes, zero padding included. */
  lemma ParseHexFormatAddress(n: nat)
    ensures ParseHex(FormatAddress(n)) == Some(n)
  {
    var h := ToHex(n);
    GroupsValueToHex(n);
    if |h| < 8 {
      GroupsValueLeadingZeros(8 - |h|, h);
    }
  }

  /** The `0x` prefix that `int(…, 16)` admits does not change the value. */
  lemma ParseHexWithPrefix(n: nat)
    ensures ParseHex("0x" + ToHex(n)) == Some(n)
  {
    var s := "0x" + ToHex(n);
    assert s[0] == '0' && s[1] == 'x';
    assert s[2..] == ToHex(n);
    assert ToHex(n)[0] != '_';
    GroupsValueToHex(n);
  }

  /** Neither does a leading `+` sign. */
  lemma ParseHexWithSign(n: nat)
    ensures ParseHex("+" + ToHex(n)) == Some(n)
  {
    var s := "+" + ToHex(n);
    assert s[1..] == ToHex(n);
    GroupsValueToHex(n);
    ParseHexToHex(n);
  }

  /**
   * Lines 32-34 of the script: the start and end address of a map line, or
   * `MalformedHeapLine` where Python would raise (no dash in the first field,
   * or a part that is not a hexadecimal numeral). The start is read from the
   * text before the first dash of the first field, the end from the text
   * between that dash and the next one (or the end of the field).
   */
  function ParseAddressRange(line: string): (r: Result<(nat, nat), Error>)
    ensures r.Failure? ==> r.error == MalformedHeapLine
    ensures r.Success? ==>
      var f := FirstField(line);
      '-' in f &&
      ParseHex(f[..IndexOf(f, '-')]) == Some(r.value.0) &&
      var g := f[IndexOf(f, '-') + 1..];
      ParseHex(if '-' in g then g[..IndexOf(g, '-')] else g) == Some(r.value.1)
  {
    var f := FirstField(line);
    var parts := Split(f, '-');
    SplitFirstParts(f, '-');
    match ParseHex(parts[0])
    case None => Failure(MalformedHeapLine)
    case Some(start) =>
      if |parts| < 2 then Failure(MalformedHeapLine)
      else
        match ParseHex(parts[1])
        case None => Failure(MalformedHeapLine)
        case Some(end) => Success((start, end))
  }

  /** Two numerals joined by a dash hold no whitespace. */
  lemma RangeFieldHasNoSpace(a: string, b: string)
    requires IsHexNumeral(a) && IsHexNumeral(b)
    ensures forall k :: 0 <= k < |a + "-" + b| ==> !IsSpace((a + "-" + b)[k])
  {
    var field := a + "-" + b;
    forall k | 0 <= k < |field| ensures !IsSpace(field[k]) {
      if k < |a| {
        assert field[k] == a[k];
      } else if k > |a| {
        assert field[k] == b[k - |a| - 1];
      }
    }
  }

  /** The field `a-b` splits on its dash into the two numerals. */
  lemma SplitRangeField(a: string, b: string)
    requires IsHexNumeral(a) && IsHexNumeral(b)
    ensures Split(a + "-" + b, '-') == [a, b]
  {
    assert '-' !in a by {
      assert forall i :: 0 <= i < |a| ==> IsHexDigit(a[i]);
    }
    assert '-' !in b by {
      assert forall i :: 0 <= i < |b| ==> IsHexDigit(b[i]);
    }
    assert Join([a, b], '-') == a + "-" + b;
    SplitJoin([a, b], '-');
  }

  /**
   * A line that starts with two hexadecimal numerals joined by a dash and
   * then whitespace, leading zeros allowed, yields the two numerals' values.
   */
  lemma ParseAddressRangeOfMapLine(a: string, b: string, rest: string)
    requires IsHexNumeral(a) && IsHexNumeral(b)
    requires rest != [] && IsSpace(rest[0])
    ensures ParseAddressRange(a + "-" + b + rest) == Success((GroupsValue(a), GroupsValue(b)))
  {
    var field := a + "-" + b;
    RangeFieldHasNoSpace(a, b);
    FirstFieldOfLeadingToken(field, rest);
    SplitRangeField(a, b);
  }

  /** In particular a line as the kernel writes it yields the addresses written. */
  lemma ParseAddressRangeOfKernelLine(start: nat, end: nat, rest: string)
    requires rest != [] && IsSpace(rest[0])
    ensures ParseAddressRange(FormatAddress(start) + "-" + FormatAddress(end) + rest) == Success((start, end))
  {
    ParseAddressRangeOfMapLine(FormatAddress(start), FormatAddress(end), rest);
    ParseHexFormatAddress(start);
    ParseHexFormatAddress(end);
  }
}
