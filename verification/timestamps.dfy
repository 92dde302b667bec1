/** Creation timestamps: the canonical text form `YYYY-MM-DD HH:MM:SS` stored in
    `data_criacao`, and the two normalisations `creation_date` applies to what the EXIF
    and ffprobe probes report. Only the zero-padded forms of Python's `strptime` and
    `fromisoformat` are modelled. */
module Timestamps {
  import opened Wrappers

  datatype DateTime = DateTime(year: int, month: int, day: int, hour: int, minute: int, second: int)

  predicate IsLeap(y: int)
  {
    y % 4 == 0 && (y % 100 != 0 || y % 400 == 0)
  }

  function DaysIn(y: int, m: int): int
  {
    if m == 2 then (if IsLeap(y) then 29 else 28)
    else if m == 4 || m == 6 || m == 9 || m == 11 then 30
    else 31
  }

  /** The values Python's `datetime` can hold (years 1 to 9999). */
  predicate ValidDateTime(dt: DateTime)
  {
    && 1 <= dt.year <= 9999 && 1 <= dt.month <= 12 && 1 <= dt.day <= DaysIn(dt.year, dt.month)
    && 0 <= dt.hour < 24 && 0 <= dt.minute < 60 && 0 <= dt.second < 60
  }

  type Timestamp = dt: DateTime | ValidDateTime(dt) witness DateTime(1970, 1, 1, 0, 0, 0)

  predicate IsDigit(c: char) { '0' <= c <= '9' }

  function DigitVal(c: char): int requires IsDigit(c) { c as int - '0' as int }

  function DigitChar(d: int): char requires 0 <= d < 10 { ('0' as int + d) as char }

  function Pad2(n: int): string requires 0 <= n < 100
  {
    [DigitChar(n / 10), DigitChar(n % 10)]
  }

  function Pad4(n: int): string requires 0 <= n < 10000
  {
    Pad2(n / 100) + Pad2(n % 100)
  }

  /** `strftime('%Y-%m-%d %H:%M:%S')`. */
  function Format(t: Timestamp): (s: string)
    ensures |s| == 19
  {
    Pad4(t.year) + "-" + Pad2(t.month) + "-" + Pad2(t.day) + " "
      + Pad2(t.hour) + ":" + Pad2(t.minute) + ":" + Pad2(t.second)
  }

  /** A 19-character `YYYY<sep>MM<sep>DD HH:MM:SS` with digits where digits belong. */
  predicate Shaped(s: string, sep: char)
  {
    && |s| == 19
    && IsDigit(s[0]) && IsDigit(s[1]) && IsDigit(s[2]) && IsDigit(s[3])
    && IsDigit(s[5]) && IsDigit(s[6]) && IsDigit(s[8]) && IsDigit(s[9])
    && IsDigit(s[11]) && IsDigit(s[12]) && IsDigit(s[14]) && IsDigit(s[15])
    && IsDigit(s[17]) && IsDigit(s[18])
    && s[4] == sep && s[7] == sep && s[10] == ' ' && s[13] == ':' && s[16] == ':'
  }

  function Num2(a: char, b: char): int requires IsDigit(a) && IsDigit(b)
  {
    10 * DigitVal(a) + DigitVal(b)
  }

  function Fields(s: string, sep: char): DateTime
    requires Shaped(s, sep)
  {
    DateTime(100 * Num2(s[0], s[1]) + Num2(s[2], s[3]), Num2(s[5], s[6]), Num2(s[8], s[9]),
             Num2(s[11], s[12]), Num2(s[14], s[15]), Num2(s[17], s[18]))
  }

  /** Parsing the fixed layout with the given date separator; `None` where Python raises. */
  function Parse(s: string, sep: char): (r: Option<Timestamp>)
    ensures r.Some? <==> Shaped(s, sep) && ValidDateTime(Fields(s, sep))
  {
    if Shaped(s, sep) && ValidDateTime(Fields(s, sep)) then Some(Fields(s, sep)) else None
  }

  /** A string is canonical when it is the formatted form of some timestamp. */
  predicate Canonical(s: string)
  {
    Parse(s, '-').Some?
  }

  lemma Pad2Parse(n: int)
    requires 0 <= n < 100
    ensures IsDigit(Pad2(n)[0]) && IsDigit(Pad2(n)[1]) && Num2(Pad2(n)[0], Pad2(n)[1]) == n
  {
  }

  lemma Num2Pad(a: char, b: char)
    requires IsDigit(a) && IsDigit(b)
    ensures Pad2(Num2(a, b)) == [a, b]
  {
    var x, y := DigitVal(a), DigitVal(b);
    assert (10 * x + y) / 10 == x && (10 * x + y) % 10 == y;
  }

  lemma Pad4Num(a: char, b: char, c: char, d: char)
    requires IsDigit(a) && IsDigit(b) && IsDigit(c) && IsDigit(d)
    ensures Pad4(100 * Num2(a, b) + Num2(c, d)) == [a, b, c, d]
  {
    var h, l := Num2(a, b), Num2(c, d);
    assert (100 * h + l) / 100 == h && (100 * h + l) % 100 == l;
    Num2Pad(a, b);
    Num2Pad(c, d);
  }

  lemma Pad4Parse(n: int)
    requires 0 <= n < 10000
    ensures var p := Pad4(n);
      IsDigit(p[0]) && IsDigit(p[1]) && IsDigit(p[2]) && IsDigit(p[3])
      && 100 * Num2(p[0], p[1]) + Num2(p[2], p[3]) == n
  {
    Pad2Parse(n / 100);
    Pad2Parse(n % 100);
  }


  /** Formatting then parsing gives back the timestamp. */
  lemma {:induction false} ParseFormat(t: Timestamp)
    ensures Parse(Format(t), '-') == Some(t)
  {
    var s := Format(t);
    assert s[..4] == Pad4(t.year) && s[5..7] == Pad2(t.month) && s[8..10] == Pad2(t.day);
    assert s[11..13] == Pad2(t.hour) && s[14..16] == Pad2(t.minute) && s[17..] == Pad2(t.second);
    Pad4Parse(t.year);
    Pad2Parse(t.month); Pad2Parse(t.day); Pad2Parse(t.hour); Pad2Parse(t.minute); Pad2Parse(t.second);
    assert Shaped(s, '-');
    assert Fields(s, '-') == t;
  }

  /** Parsing then formatting gives back the text: a parsable `-`-separated string is
      already in canonical form. */
  lemma {:induction false} FormatParse(s: string)
    requires Parse(s, '-').Some?
    ensures Format(Parse(s, '-').value) == s
  {
    var t := Parse(s, '-').value;
    Pad4Num(s[0], s[1], s[2], s[3]);
    Num2Pad(s[5], s[6]); Num2Pad(s[8], s[9]); Num2Pad(s[11], s[12]);
    Num2Pad(s[14], s[15]); Num2Pad(s[17], s[18]);
    assert Format(t) == s;
  }

  /** The date separators replaced by `sep`. */
  function WithDateSeparator(s: string, sep: char): (r: string)
    requires |s| == 19
    ensures |r| == 19
  {
    s[..4] + [sep] + s[5..7] + [sep] + s[8..]
  }

  // ---------------------------------------------------------------------------------
  // EXIF DateTimeOriginal (encontra_repetidos_sqlite.py, lines 47-58)

  datatype ExifTag = ExifTag(name: string, value: string)

  /** `strptime(value, '%Y:%m:%d %H:%M:%S').strftime('%Y-%m-%d %H:%M:%S')`, `None` when
      `strptime` raises. */
  function NormalizeExif(v: string): (r: Option<string>)
    ensures r.Some? <==> Parse(v, ':').Some?
    ensures r.Some? ==> Canonical(r.value)
  {
    match Parse(v, ':')
    case Some(t) => ParseFormat(t); Some(Format(t))
    case None => None
  }

  /** An entry the EXIF loop returns from: a `DateTimeOriginal` whose value parses. */
  predicate UsableExif(tag: ExifTag)
  {
    tag.name == "DateTimeOriginal" && NormalizeExif(tag.value).Some?
  }

  /** No entry of `tags` is one the EXIF loop returns from. */
  predicate NoneUsable(tags: seq<ExifTag>)
  {
    forall j :: 0 <= j < |tags| ==> !UsableExif(tags[j])
  }

  /** The EXIF loop: the first `DateTimeOriginal` entry whose value parses wins; entries that
      do not parse are skipped. */
  function ExifDate(tags: seq<ExifTag>): (r: Option<string>)
    ensures r.None? <==> NoneUsable(tags)
    ensures r.Some? ==> exists i :: && 0 <= i < |tags| && UsableExif(tags[i])
                                   && NormalizeExif(tags[i].value) == r && NoneUsable(tags[..i])
  {
    if tags == [] then None
    else if UsableExif(tags[0]) then
      assert NoneUsable(tags[..0]);
      NormalizeExif(tags[0].value)
    else
      var r := ExifDate(tags[1..]);
      ExifDateSkip(tags, r);
      r
  }

  /** Skipping an entry the loop does not return from. */
  lemma ExifDateSkip(tags: seq<ExifTag>, r: Option<string>)
    requires tags != [] && !UsableExif(tags[0])
    requires r.None? <==> NoneUsable(tags[1..])
    requires r.Some? ==> exists i :: && 0 <= i < |tags[1..]| && UsableExif(tags[1..][i])
                                    && NormalizeExif(tags[1..][i].value) == r && NoneUsable(tags[1..][..i])
    ensures r.None? <==> NoneUsable(tags)
    ensures r.Some? ==> exists i :: && 0 <= i < |tags| && UsableExif(tags[i])
                                   && NormalizeExif(tags[i].value) == r && NoneUsable(tags[..i])
  {
    var t := tags[1..];
    assert tags == [tags[0]] + t;
    NoneUsableCons(tags[0], t);
    if r.Some? {
      var i :| 0 <= i < |t| && UsableExif(t[i]) && NormalizeExif(t[i].value) == r && NoneUsable(t[..i]);
      TagsPrefix(tags, i);
      NoneUsableCons(tags[0], t[..i]);
      assert tags[i + 1] == t[i];
    }
  }

  lemma TagsPrefix(tags: seq<ExifTag>, i: nat)
    requires i < |tags| - 1
    ensures tags[..i + 1] == [tags[0]] + tags[1..][..i]
  {
  }

  lemma NoneUsableCons(tag: ExifTag, rest: seq<ExifTag>)
    requires !UsableExif(tag)
    ensures NoneUsable([tag] + rest) <==> NoneUsable(rest)
  {
    var s := [tag] + rest;
    assert forall j :: 0 <= j < |rest| ==> s[j + 1] == rest[j];
  }

  /** `YYYY:MM:DD HH:MM:SS` becomes `YYYY-MM-DD HH:MM:SS`: only the date separators change. */
  lemma {:induction false} ExifSeparatorsOnly(v: string)
    requires NormalizeExif(v).Some?
    ensures |v| == 19 && NormalizeExif(v).value == WithDateSeparator(v, '-')
  {
    var w := WithDateSeparator(v, '-');
    assert Shaped(w, '-') && Fields(w, '-') == Fields(v, ':');
    FormatParse(w);
  }

  // ---------------------------------------------------------------------------------
  // ffprobe creation_time (encontra_repetidos_sqlite.py, lines 76-84)

  /** `str.replace(c, d)` for single characters. */
  function ReplaceChar(s: string, c: char, d: char): (r: string)
    ensures |r| == |s| && forall i :: 0 <= i < |s| ==> r[i] == (if s[i] == c then d else s[i])
  {
    seq(|s|, i requires 0 <= i < |s| => if s[i] == c then d else s[i])
  }

  /** `str.replace(c, '')`. */
  function RemoveChar(s: string, c: char): (r: string)
    ensures c !in r
    ensures forall d :: d != c ==> multiset(r)[d] == multiset(s)[d]
    ensures c !in s ==> r == s
  {
    if s == [] then []
    else
      assert s == [s[0]] + s[1..];
      (if s[0] == c then [] else [s[0]]) + RemoveChar(s[1..], c)
  }

  lemma {:induction false} RemoveConcat(a: string, b: string, c: char)
    ensures RemoveChar(a + b, c) == RemoveChar(a, c) + RemoveChar(b, c)
  {
    if a == [] {
      assert a + b == b;
    } else {
      var head: string := if a[0] == c then [] else [a[0]];
      var ab := a + b;
      assert ab[0] == a[0] && ab[1..] == a[1..] + b;
      RemoveConcat(a[1..], b, c);
      calc {
        RemoveChar(ab, c);
        head + RemoveChar(a[1..] + b, c);
        head + (RemoveChar(a[1..], c) + RemoveChar(b, c));
        (head + RemoveChar(a[1..], c)) + RemoveChar(b, c);
        RemoveChar(a, c) + RemoveChar(b, c);
      }
    }
  }

  predicate FractionOk(t: string)
  {
    t == [] || (t[0] == '.' && (|t| == 4 || |t| == 7) && forall i :: 1 <= i < |t| ==> IsDigit(t[i]))
  }

  /** `datetime.fromisoformat` on `YYYY-MM-DD`, `YYYY-MM-DD HH:MM:SS` and the same with three or
      six fractional digits. */
  function ParseIso(s: string): (r: Option<Timestamp>)
    ensures |s| >= 19 && r.Some? ==> Parse(s[..19], '-') == r
  {
    if |s| == 10 then Parse(s + " 00:00:00", '-')
    else if |s| >= 19 && Parse(s[..19], '-').Some? && FractionOk(s[19..]) then Parse(s[..19], '-')
    else None
  }

  /** The string handed to `fromisoformat`: `creation_time` without `Z` and with `T` as a space. */
  function CleanedVideoTime(ct: string): string
  {
    ReplaceChar(RemoveChar(ct, 'Z'), 'T', ' ')
  }

  /** The value stored when `fromisoformat` raises: the first 19 characters with `T` as a space. */
  function VideoFallback(ct: string): (r: string)
    ensures |r| <= 19 && 'T' !in r
  {
    ReplaceChar(ct[..if |ct| < 19 then |ct| else 19], 'T', ' ')
  }

  /** The video branch: a cleaned `creation_time` that parses is stored as the canonical text of
      that timestamp; otherwise the fallback is stored. */
  function NormalizeVideoTime(ct: string): (r: string)
    ensures |r| <= 19
    ensures ParseIso(CleanedVideoTime(ct)).Some? ==> Canonical(r) && Parse(r, '-') == ParseIso(CleanedVideoTime(ct))
    ensures ParseIso(CleanedVideoTime(ct)).None? ==> r == VideoFallback(ct)
  {
    match ParseIso(CleanedVideoTime(ct))
    case Some(t) => ParseFormat(t); Format(t)
    case None => VideoFallback(ct)
  }

  lemma ReplaceConcat(a: string, b: string, c: char, d: char)
    ensures ReplaceChar(a + b, c, d) == ReplaceChar(a, c, d) + ReplaceChar(b, c, d)
  {
  }

  /** A `creation_time` that starts with a valid timestamp (with `T` or a space between date
      and time) normalises to that timestamp in canonical form, whatever follows it
      (`Z`, fractional seconds, an offset, anything). */
  lemma {:induction false} VideoTimeValidPrefix(ct: string)
    requires |ct| >= 19 && Canonical(ReplaceChar(ct[..19], 'T', ' '))
    ensures NormalizeVideoTime(ct) == ReplaceChar(ct[..19], 'T', ' ')
  {
    var p, rest := ct[..19], ct[19..];
    var q := ReplaceChar(p, 'T', ' ');
    assert ct == p + rest;
    assert 'Z' !in p by {
      forall i | 0 <= i < 19 ensures p[i] != 'Z' {
        assert q[i] == (if p[i] == 'T' then ' ' else p[i]);
        if i !in {4, 7, 10, 13, 16} { assert IsDigit(q[i]); }
      }
    }
    RemoveConcat(p, rest, 'Z');
    assert RemoveChar(ct, 'Z') == p + RemoveChar(rest, 'Z');
    ReplaceConcat(p, RemoveChar(rest, 'Z'), 'T', ' ');
    var cleaned := CleanedVideoTime(ct);
    assert cleaned == q + ReplaceChar(RemoveChar(rest, 'Z'), 'T', ' ');
    assert cleaned[..19] == q;
    FormatParse(q);
  }

  /** A `creation_time` shorter than 19 characters that does not parse is stored as it came,
      with `T` as a space: the stored value is not canonical. */
  lemma VideoTimeGarbageKept(ct: string)
    requires |ct| < 19 && ParseIso(CleanedVideoTime(ct)).None?
    ensures NormalizeVideoTime(ct) == ReplaceChar(ct, 'T', ' ')
    ensures !Canonical(NormalizeVideoTime(ct))
  {
    assert ct[..|ct|] == ct;
  }
}
