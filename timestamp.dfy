/** `get_timestamp`: the integer sort key the script reads out of an image
    file name, as written, and the date-time key its comment describes. */
module Timestamp {
  import opened Errors
  import opened PyStr

  /** Python list indexing `fields[i]`, which raises `IndexError` past the end. */
  function At(fields: seq<string>, i: nat): Result<string>
  {
    if i < |fields| then Ok(fields[i]) else Err(IndexError)
  }

  /** `get_timestamp(filename)` as written. A name holding `-` is keyed by
      `int(filename.split("-")[1].split(".")[0])`; any other name by
      `int(filename.split("_")[1].replace("__", "_").replace("_", ""))`. */
  function GetTimestamp(filename: string): Result<int>
  {
    if '-' in filename then
      match At(Split(filename, '-'), 1)
      case Err(e) => Err(e)
      case Ok(field) => ParseInt(Split(field, '.')[0])
    else
      match At(Split(filename, '_'), 1)
      case Err(e) => Err(e)
      case Ok(field) => ParseInt(Replace(Replace(field, "__", "_"), "_", ""))
  }

  /** The text before the first `.` of `f + g`, where `f` holds no `.` and
      `g` is empty or starts with one, is `f`. */
  lemma {:induction false} StemBeforeDot(f: string, g: string)
    requires '.' !in f
    requires g == [] || g[0] == '.'
    ensures Split(f + g, '.')[0] == f
  {
    FindConcat(f, g, '.');
    assert Find(g, '.') == 0;
    assert (f + g)[..|f|] == f;
  }

  /** The second field of `p + [c] + q`, where `p` holds no `c`, is `q` up
      to its first `c`. */
  lemma {:induction false} SecondField(p: string, c: char, q: string)
    requires c !in p
    ensures At(Split(p + [c] + q, c), 1) == Ok(q[..Find(q, c)])
  {
    SplitAfterFirst(p, c, q);
  }

  /** The second `-` field of `p + "-" + f + rest`, where neither `p` nor `f`
      holds `-`, is `f` followed by `rest` up to its first `-`. */
  lemma {:induction false} HyphenField(p: string, f: string, rest: string)
    requires '-' !in p && '-' !in f
    ensures '-' in p + "-" + f + rest
    ensures At(Split(p + "-" + f + rest, '-'), 1) == Ok(f + rest[..Find(rest, '-')])
  {
    assert p + "-" + f + rest == p + ['-'] + (f + rest);
    assert (p + "-" + f + rest)[|p|] == '-';
    SecondField(p, '-', f + rest);
    PrefixThenFind(f, rest, '-');
  }

  /** Hyphen branch: the key is `int()` of the text between the first `-` and
      the next `-` or `.` (for `motion-1672617845.png`, of `1672617845`). */
  lemma {:induction false} HyphenKey(p: string, f: string, rest: string)
    requires '-' !in p && '-' !in f && '.' !in f
    requires rest == [] || rest[0] == '-' || rest[0] == '.'
    ensures GetTimestamp(p + "-" + f + rest) == ParseInt(f)
  {
    HyphenField(p, f, rest);
    var g := rest[..Find(rest, '-')];
    assert g == [] || g[0] == '.';
    StemBeforeDot(f, g);
  }

  /** Underscore branch: for a name without `-`, the key is `int()` of the
      second `_`-separated field alone; both replacements leave that field
      as it is, since it holds no `_`. */
  lemma {:induction false} UnderscoreKey(p: string, f: string, rest: string)
    requires '-' !in p + "_" + f + rest
    requires '_' !in p && '_' !in f
    requires rest == [] || rest[0] == '_'
    ensures GetTimestamp(p + "_" + f + rest) == ParseInt(f)
  {
    var name := p + "_" + f + rest;
    assert name == p + ['_'] + (f + rest);
    SplitAfterFirst(p, '_', f + rest);
    FindConcat(f, rest, '_');
    assert Find(rest, '_') == 0;
    assert Split(f + rest, '_')[0] == f by {
      assert (f + rest)[..|f|] == f;
    }
    assert At(Split(name, '_'), 1) == Ok(f);
    ReplaceAbsent(f, "__", "_");
    ReplaceAbsent(f, "_", "");
  }

  /** A name with neither `-` nor `_` has no second field: `IndexError`. */
  lemma {:induction false} NoSeparatorIsIndexError(name: string)
    requires '-' !in name && '_' !in name
    ensures GetTimestamp(name) == Err(IndexError)
  {
  }

  /** The hyphen branch always has a second field, so its only failure is a
      `ValueError` from `int()`: a field with no digit (empty, `png`) or with
      a character no integer literal holds (`12a`) is one. */
  lemma {:induction false} HyphenFieldNotNumeric(p: string, f: string, rest: string)
    requires '-' !in p && '-' !in f && '.' !in f
    requires rest == [] || rest[0] == '-' || rest[0] == '.'
    requires (forall k :: 0 <= k < |f| ==> !IsDigit(f[k])) || (exists k :: 0 <= k < |f| && !IsIntChar(f[k]))
    ensures GetTimestamp(p + "-" + f + rest) == Err(ValueError)
  {
    HyphenKey(p, f, rest);
    ParseIntAlphabet(f);
  }

  /** The decimal values the two file-name examples need, built a digit at a
      time from the left. */
  lemma {:induction false} DecimalSteps1()
    ensures DecimalValue("1672") == 1672
  {
    assert DecimalValue("1") == 1;
    DecimalValueSnoc("1", '6');
    assert "1" + ['6'] == "16";
    DecimalValueSnoc("16", '7');
    assert "16" + ['7'] == "167";
    DecimalValueSnoc("167", '2');
    assert "167" + ['2'] == "1672";
  }

  lemma {:induction false} DecimalSteps2()
    ensures DecimalValue("1672617") == 1672617
  {
    DecimalSteps1();
    DecimalValueSnoc("1672", '6');
    assert "1672" + ['6'] == "16726";
    DecimalValueSnoc("16726", '1');
    assert "16726" + ['1'] == "167261";
    DecimalValueSnoc("167261", '7');
    assert "167261" + ['7'] == "1672617";
  }

  lemma {:induction false} DecimalSteps3()
    ensures DecimalValue("1672617845") == 1672617845
  {
    DecimalSteps2();
    DecimalValueSnoc("1672617", '8');
    assert "1672617" + ['8'] == "16726178";
    DecimalValueSnoc("16726178", '4');
    assert "16726178" + ['4'] == "167261784";
    DecimalValueSnoc("167261784", '5');
    assert "167261784" + ['5'] == "1672617845";
  }

  lemma {:induction false} DecimalYear()
    ensures DecimalValue("2023") == 2023
  {
    assert DecimalValue("2") == 2;
    DecimalValueSnoc("2", '0');
    assert "2" + ['0'] == "20";
    DecimalValueSnoc("20", '2');
    assert "20" + ['2'] == "202";
    DecimalValueSnoc("202", '3');
    assert "202" + ['3'] == "2023";
  }

  /** `get_timestamp("motion-1672617845.png") == 1672617845`. */
  lemma {:induction false} MotionExample()
    ensures GetTimestamp("motion-1672617845.png") == Ok(1672617845)
  {
    assert "motion" + "-" + "1672617845" + ".png" == "motion-1672617845.png";
    HyphenKey("motion", "1672617845", ".png");
    ParseMotionField();
  }

  lemma {:induction false} ParseMotionField()
    ensures ParseInt("1672617845") == Ok(1672617845)
  {
    ParseDigits("1672617845");
    DecimalSteps3();
  }

  /** A camera file name `c<id>_yyyy_mm_dd__hh__mm__ss.<ext>`. */
  function CameraName(id: string, year: string, month: string, day: string,
                      hour: string, minute: string, second: string, ext: string): string
  {
    id + "_" + DateTimeText(year, month, day, hour, minute, second) + "." + ext
  }

  /** The `yyyy_mm_dd__hh__mm__ss` part of a camera file name. */
  function DateTimeText(year: string, month: string, day: string,
                        hour: string, minute: string, second: string): string
  {
    year + "_" + (month + "_" + (day + "__" + (hour + "__" + (minute + "__" + second))))
  }

  /** Fields of a camera name: an id free of `_`, `-` and `.`, a four-digit year,
      two-digit month, day, hour, minute and second, an extension free of `-`. */
  predicate IsCameraName(id: string, year: string, month: string, day: string,
                         hour: string, minute: string, second: string, ext: string)
  {
    && '_' !in id && '-' !in id && '-' !in ext
    && |year| == 4 && |month| == 2 && |day| == 2 && |hour| == 2 && |minute| == 2 && |second| == 2
    && AllDigits(year) && AllDigits(month) && AllDigits(day)
    && AllDigits(hour) && AllDigits(minute) && AllDigits(second)
  }

  lemma {:induction false} DigitsHaveNoSeparator(d: string)
    requires AllDigits(d)
    ensures '_' !in d && '-' !in d && '.' !in d
  {
    assert forall k :: 0 <= k < |d| ==> d[k] != '_' && d[k] != '-' && d[k] != '.';
  }

  lemma {:induction false} DateTimeTextHasNoHyphenOrDot(year: string, month: string, day: string,
                                     hour: string, minute: string, second: string)
    requires AllDigits(year) && AllDigits(month) && AllDigits(day)
    requires AllDigits(hour) && AllDigits(minute) && AllDigits(second)
    ensures '-' !in DateTimeText(year, month, day, hour, minute, second)
    ensures '.' !in DateTimeText(year, month, day, hour, minute, second)
  {
    DigitsHaveNoSeparator(year);
    DigitsHaveNoSeparator(month);
    DigitsHaveNoSeparator(day);
    DigitsHaveNoSeparator(hour);
    DigitsHaveNoSeparator(minute);
    DigitsHaveNoSeparator(second);
  }

  /** As written, a camera name is keyed by its year alone: month, day and
      time of day never reach the key. */
  lemma {:induction false} CameraKeyIsYear(id: string, year: string, month: string, day: string,
                        hour: string, minute: string, second: string, ext: string)
    requires IsCameraName(id, year, month, day, hour, minute, second, ext)
    ensures GetTimestamp(CameraName(id, year, month, day, hour, minute, second, ext))
            == Ok(DecimalValue(year))
  {
    var t := DateTimeText(year, month, day, hour, minute, second);
    var rest := "_" + (month + "_" + (day + "__" + (hour + "__" + (minute + "__" + second)))) + "." + ext;
    DateTimeTextHasNoHyphenOrDot(year, month, day, hour, minute, second);
    DigitsHaveNoSeparator(year);
    var name := CameraName(id, year, month, day, hour, minute, second, ext);
    assert name == id + "_" + year + rest;
    CameraNameHasNoHyphen(id, year, month, day, hour, minute, second, ext);
    UnderscoreKey(id, year, rest);
    ParseDigits(year);
  }

  /** `get_timestamp("cam1_2023_01_02__03__04__05.png") == 2023`, and a frame
      taken almost a year later gets the same key. */
  lemma {:induction false} CameraExampleAsWritten()
    ensures GetTimestamp("cam1_2023_01_02__03__04__05.png") == Ok(2023)
    ensures GetTimestamp("cam1_2023_12_31__23__59__59.png") == Ok(2023)
  {
    CameraExampleNames();
    CameraKeyIsYear("cam1", "2023", "01", "02", "03", "04", "05", "png");
    CameraKeyIsYear("cam1", "2023", "12", "31", "23", "59", "59", "png");
    DecimalYear();
  }

  lemma {:induction false} CameraExampleNames()
    ensures "cam1_2023_01_02__03__04__05.png" == CameraName("cam1", "2023", "01", "02", "03", "04", "05", "png")
    ensures "cam1_2023_12_31__23__59__59.png" == CameraName("cam1", "2023", "12", "31", "23", "59", "59", "png")
    ensures IsCameraName("cam1", "2023", "01", "02", "03", "04", "05", "png")
    ensures IsCameraName("cam1", "2023", "12", "31", "23", "59", "59", "png")
  {
    FirstCameraName();
    FirstCameraFields();
    SecondCameraName();
    SecondCameraFields();
  }

  lemma {:induction false} FirstCameraName()
    ensures "cam1_2023_01_02__03__04__05.png" == CameraName("cam1", "2023", "01", "02", "03", "04", "05", "png")
  {
  }

  lemma {:induction false} FirstCameraFields()
    ensures IsCameraName("cam1", "2023", "01", "02", "03", "04", "05", "png")
  {
  }

  lemma {:induction false} SecondCameraName()
    ensures "cam1_2023_12_31__23__59__59.png" == CameraName("cam1", "2023", "12", "31", "23", "59", "59", "png")
  {
  }

  lemma {:induction false} SecondCameraFields()
    ensures IsCameraName("cam1", "2023", "12", "31", "23", "59", "59", "png")
  {
  }

  /** The key the comment beside the underscore branch describes for camera
      names, the whole date-time `yyyymmddhhmmss`: the text after the first
      `_` up to the next `.`, with `__` collapsed to `_` and every `_` dropped
      (in Python, `filename.split("_", 1)[1].split(".")[0]` in place of
      `filename.split("_")[1]`). Hyphenated names keep their key. */
  function IntendedTimestamp(filename: string): Result<int>
  {
    if '-' in filename then GetTimestamp(filename)
    else
      var i := Find(filename, '_');
      if i == |filename| then Err(IndexError)
      else
        var stem := Split(filename[i + 1..], '.')[0];
        ParseInt(Replace(Replace(stem, "__", "_"), "_", ""))
  }

  datatype DateTime = DateTime(year: nat, month: nat, day: nat, hour: nat, minute: nat, second: nat)
  {
    /** Every field after the year fits in two decimal digits. */
    predicate TwoDigitFields()
    {
      month < 100 && day < 100 && hour < 100 && minute < 100 && second < 100
    }
  }

  /** `yyyymmddhhmmss` read as one decimal number. */
  function DateTimeKey(t: DateTime): nat
  {
    t.year * 10000000000 + t.month * 100000000 + t.day * 1000000
    + t.hour * 10000 + t.minute * 100 + t.second
  }

  /** `a` comes strictly before `b` in calendar order, field by field. */
  predicate Before(a: DateTime, b: DateTime)
  {
    || a.year < b.year
    || (a.year == b.year && a.month < b.month)
    || (a.year == b.year && a.month == b.month && a.day < b.day)
    || (a.year == b.year && a.month == b.month && a.day == b.day && a.hour < b.hour)
    || (a.year == b.year && a.month == b.month && a.day == b.day && a.hour == b.hour
        && a.minute < b.minute)
    || (a.year == b.year && a.month == b.month && a.day == b.day && a.hour == b.hour
        && a.minute == b.minute && a.second < b.second)
  }

  /** Sorting by the intended key is sorting by date and time: one key is
      below another exactly when its date-time comes first, and two keys are
      equal exactly when the date-times are. */
  lemma {:induction false} DateTimeKeyChronological(a: DateTime, b: DateTime)
    requires a.TwoDigitFields() && b.TwoDigitFields()
    ensures DateTimeKey(a) < DateTimeKey(b) <==> Before(a, b)
    ensures DateTimeKey(a) == DateTimeKey(b) <==> a == b
  {
    var ka, kb := DateTimeKey(a), DateTimeKey(b);
    var ra := ka - a.year * 10000000000;
    var rb := kb - b.year * 10000000000;
    assert 0 <= ra < 10000000000 && 0 <= rb < 10000000000;
    if a.year != b.year {
      assert a.year < b.year ==> ka < kb;
      assert b.year < a.year ==> kb < ka;
    }
  }

  /** A two-digit field denotes a number below 100. */
  lemma {:induction false} TwoDigitsBelow100(d: string)
    requires |d| == 2 && AllDigits(d)
    ensures DecimalValue(d) < 100
  {
    var front := d[..1];
    assert front[..0] == [];
    assert d[..|d| - 1] == front;
    assert DecimalValue(front) == d[0] as int - '0' as int;
  }

  /** The date and time the fields of a camera name denote. */
  function CameraDateTime(year: string, month: string, day: string,
                          hour: string, minute: string, second: string): DateTime
    requires AllDigits(year) && AllDigits(month) && AllDigits(day)
    requires AllDigits(hour) && AllDigits(minute) && AllDigits(second)
  {
    DateTime(DecimalValue(year), DecimalValue(month), DecimalValue(day),
             DecimalValue(hour), DecimalValue(minute), DecimalValue(second))
  }

  /** The fields after the year of a camera name fit in two digits. */
  lemma {:induction false} CameraFieldsTwoDigit(id: string, year: string, month: string, day: string,
                          hour: string, minute: string, second: string, ext: string)
    requires IsCameraName(id, year, month, day, hour, minute, second, ext)
    ensures CameraDateTime(year, month, day, hour, minute, second).TwoDigitFields()
  {
    TwoDigitsBelow100(month);
    TwoDigitsBelow100(day);
    TwoDigitsBelow100(hour);
    TwoDigitsBelow100(minute);
    TwoDigitsBelow100(second);
  }

  /** With the intended key, camera names sort by date and time: both keys
      are read, the first is below the second exactly when its date-time
      comes first, and they are equal exactly when the date-times are. */
  lemma {:induction false} CameraNamesChronological(
    id1: string, year1: string, month1: string, day1: string,
    hour1: string, minute1: string, second1: string, ext1: string,
    id2: string, year2: string, month2: string, day2: string,
    hour2: string, minute2: string, second2: string, ext2: string)
    requires IsCameraName(id1, year1, month1, day1, hour1, minute1, second1, ext1)
    requires IsCameraName(id2, year2, month2, day2, hour2, minute2, second2, ext2)
    ensures IntendedTimestamp(CameraName(id1, year1, month1, day1, hour1, minute1, second1, ext1)).Ok?
    ensures IntendedTimestamp(CameraName(id2, year2, month2, day2, hour2, minute2, second2, ext2)).Ok?
    ensures IntendedTimestamp(CameraName(id1, year1, month1, day1, hour1, minute1, second1, ext1)).value
            < IntendedTimestamp(CameraName(id2, year2, month2, day2, hour2, minute2, second2, ext2)).value
            <==> Before(CameraDateTime(year1, month1, day1, hour1, minute1, second1),
                        CameraDateTime(year2, month2, day2, hour2, minute2, second2))
    ensures IntendedTimestamp(CameraName(id1, year1, month1, day1, hour1, minute1, second1, ext1)).value
            == IntendedTimestamp(CameraName(id2, year2, month2, day2, hour2, minute2, second2, ext2)).value
            <==> CameraDateTime(year1, month1, day1, hour1, minute1, second1)
                 == CameraDateTime(year2, month2, day2, hour2, minute2, second2)
  {
    IntendedCameraKey(id1, year1, month1, day1, hour1, minute1, second1, ext1);
    IntendedCameraKey(id2, year2, month2, day2, hour2, minute2, second2, ext2);
    CameraFieldsTwoDigit(id1, year1, month1, day1, hour1, minute1, second1, ext1);
    CameraFieldsTwoDigit(id2, year2, month2, day2, hour2, minute2, second2, ext2);
    DateTimeKeyChronological(CameraDateTime(year1, month1, day1, hour1, minute1, second1),
                             CameraDateTime(year2, month2, day2, hour2, minute2, second2));
  }

  /** The two keys part ways on names with a single `_`, such as
      `img_001.png`: as written, the second `_` field still carries the
      extension and `int()` raises `ValueError`; the corrected key stops at
      the `.` and reads the number. */
  lemma {:induction false} OneFieldAsWritten(id: string, d: string, ext: string)
    requires '_' !in id && '-' !in id && '_' !in ext && '-' !in ext
    requires d != [] && AllDigits(d)
    ensures GetTimestamp(id + "_" + d + "." + ext) == Err(ValueError)
  {
    var f := d + "." + ext;
    DigitsHaveNoSeparator(d);
    assert id + "_" + d + "." + ext == id + "_" + f + [];
    UnderscoreKey(id, f, []);
    assert f[|d|] == '.';
    ParseIntRejects(f, |d|);
  }

  lemma {:induction false} OneFieldIntended(id: string, d: string, ext: string)
    requires '_' !in id && '-' !in id && '_' !in ext && '-' !in ext
    requires d != [] && AllDigits(d)
    ensures IntendedTimestamp(id + "_" + d + "." + ext) == Ok(DecimalValue(d))
  {
    DigitsHaveNoSeparator(d);
    IntendedStem(id, d, ext);
    ReplaceAbsent(d, "__", "_");
    ReplaceAbsent(d, "_", "");
    ParseDigits(d);
  }

  /** And on names with a further `_` field before the extension, such as
      `a_12_b.png`: as written, the key is the number in the second field;
      the corrected key joins the fields and `int("12b")` raises
      `ValueError`. */
  lemma {:induction false} TwoFieldsAsWritten(id: string, d: string, tail: string, ext: string)
    requires '_' !in id && '-' !in id && '-' !in tail && '-' !in ext
    requires d != [] && AllDigits(d)
    ensures GetTimestamp(id + "_" + d + "_" + tail + "." + ext) == Ok(DecimalValue(d))
  {
    var rest := "_" + tail + "." + ext;
    DigitsHaveNoSeparator(d);
    assert id + "_" + d + "_" + tail + "." + ext == id + "_" + d + rest;
    UnderscoreKey(id, d, rest);
    ParseDigits(d);
  }

  lemma {:induction false} TwoFieldsIntended(id: string, d: string, tail: string, ext: string)
    requires '_' !in id && '-' !in id && '-' !in ext
    requires '_' !in tail && '-' !in tail && '.' !in tail
    requires d != [] && AllDigits(d)
    requires exists k :: 0 <= k < |tail| && !IsIntChar(tail[k])
    ensures IntendedTimestamp(id + "_" + d + "_" + tail + "." + ext) == Err(ValueError)
  {
    var k :| 0 <= k < |tail| && !IsIntChar(tail[k]);
    var t := d + "_" + tail;
    DigitsHaveNoSeparator(d);
    assert id + "_" + d + "_" + tail + "." + ext == id + "_" + t + "." + ext;
    IntendedStem(id, t, ext);
    JoinTwoFields(d, tail);
    assert (d + tail)[|d| + k] == tail[k];
    ParseIntRejects(d + tail, |d| + k);
  }

  /** Both replacements of the corrected key join two fields separated by a
      single `_`. */
  lemma {:induction false} JoinTwoFields(d: string, tail: string)
    requires '_' !in d && '_' !in tail && tail != []
    ensures Replace(Replace(d + "_" + tail, "__", "_"), "_", "") == d + tail
  {
    KeepSingle(d, tail);
    ReplaceAbsent(tail, "__", "_");
    DropSingle(d, tail);
    ReplaceAbsent(tail, "_", "");
  }

  /** `__` between a field free of `_` and a field starting with a digit
      becomes a single `_`. */
  lemma {:induction false} CollapseDouble(a: string, b: string)
    requires '_' !in a && b != [] && b[0] != '_'
    ensures Replace(a + "__" + b, "__", "_") == a + "_" + Replace(b, "__", "_")
  {
    assert a + "__" + b == a + ("__" + b);
    ReplaceSkipsPrefix(a, "__" + b, "__", "_");
    assert ("__" + b)[..2] == "__";
    assert ("__" + b)[2..] == b;
    assert a + ("_" + Replace(b, "__", "_")) == a + "_" + Replace(b, "__", "_");
  }

  /** A single `_` before a field starting with a digit is kept by the
      collapse of `__`. */
  lemma {:induction false} KeepSingle(a: string, b: string)
    requires '_' !in a && b != [] && b[0] != '_'
    ensures Replace(a + "_" + b, "__", "_") == a + "_" + Replace(b, "__", "_")
  {
    assert a + "_" + b == a + ("_" + b);
    ReplaceSkipsPrefix(a, "_" + b, "__", "_");
    LoneUnderscore(b);
    assert a + ("_" + Replace(b, "__", "_")) == a + "_" + Replace(b, "__", "_");
  }

  /** A `_` followed by something else is not a `__`, and is kept. */
  lemma {:induction false} LoneUnderscore(b: string)
    requires b != [] && b[0] != '_'
    ensures Replace("_" + b, "__", "_") == "_" + Replace(b, "__", "_")
  {
    var s := "_" + b;
    assert s[1] == b[0];
    assert s[..2] != "__" by { assert s[..2][1] == s[1]; }
    assert s[1..] == b;
  }

  /** Dropping `_` removes a separator after a field free of `_`. */
  lemma {:induction false} DropSingle(a: string, b: string)
    requires '_' !in a
    ensures Replace(a + "_" + b, "_", "") == a + Replace(b, "_", "")
  {
    assert a + "_" + b == a + ("_" + b);
    ReplaceSkipsPrefix(a, "_" + b, "_", "");
    assert ("_" + b)[..1] == "_";
    assert ("_" + b)[1..] == b;
  }

  /** `replace("__", "_")` on the date-time text of a camera name. */
  lemma {:induction false} CollapseDateTime(year: string, month: string, day: string,
                         hour: string, minute: string, second: string)
    requires AllDigits(year) && AllDigits(month) && AllDigits(day)
    requires AllDigits(hour) && AllDigits(minute) && AllDigits(second)
    requires month != [] && day != [] && hour != [] && minute != [] && second != []
    ensures Replace(DateTimeText(year, month, day, hour, minute, second), "__", "_")
            == year + "_" + (month + "_" + (day + "_" + (hour + "_" + (minute + "_" + second))))
  {
    DigitsHaveNoSeparator(year);
    DigitsHaveNoSeparator(month);
    DigitsHaveNoSeparator(day);
    DigitsHaveNoSeparator(hour);
    DigitsHaveNoSeparator(minute);
    DigitsHaveNoSeparator(second);
    var t4 := minute + "__" + second;
    var t3 := hour + "__" + t4;
    var t2 := day + "__" + t3;
    var t1 := month + "_" + t2;
    ReplaceAbsent(second, "__", "_");
    CollapseDouble(minute, second);
    CollapseDouble(hour, t4);
    CollapseDouble(day, t3);
    KeepSingle(month, t2);
    KeepSingle(year, t1);
  }

  /** `replace("_", "")` on the collapsed date-time text. */
  lemma {:induction false} DropDateTimeSeparators(year: string, month: string, day: string,
                               hour: string, minute: string, second: string)
    requires AllDigits(year) && AllDigits(month) && AllDigits(day)
    requires AllDigits(hour) && AllDigits(minute) && AllDigits(second)
    ensures Replace(year + "_" + (month + "_" + (day + "_" + (hour + "_" + (minute + "_" + second)))), "_", "")
            == year + (month + (day + (hour + (minute + second))))
  {
    var u2 := day + "_" + (hour + "_" + (minute + "_" + second));
    DropTimeSeparators(day, hour, minute, second);
    DigitsHaveNoSeparator(year);
    DigitsHaveNoSeparator(month);
    DropSingle(month, u2);
    DropSingle(year, month + "_" + u2);
  }

  lemma {:induction false} DropTimeSeparators(day: string, hour: string, minute: string, second: string)
    requires AllDigits(day) && AllDigits(hour) && AllDigits(minute) && AllDigits(second)
    ensures Replace(day + "_" + (hour + "_" + (minute + "_" + second)), "_", "")
            == day + (hour + (minute + second))
  {
    DigitsHaveNoSeparator(day);
    DigitsHaveNoSeparator(hour);
    DigitsHaveNoSeparator(minute);
    DigitsHaveNoSeparator(second);
    ReplaceAbsent(second, "_", "");
    DropSingle(minute, second);
    DropSingle(hour, minute + "_" + second);
    DropSingle(day, hour + "_" + (minute + "_" + second));
  }

  /** The number the fourteen date-time digits denote is the date-time key. */
  lemma {:induction false} DateTimeDigitsValue(year: string, month: string, day: string,
                            hour: string, minute: string, second: string)
    requires AllDigits(year) && AllDigits(month) && AllDigits(day)
    requires AllDigits(hour) && AllDigits(minute) && AllDigits(second)
    requires |month| == 2 && |day| == 2 && |hour| == 2 && |minute| == 2 && |second| == 2
    ensures AllDigits(year + (month + (day + (hour + (minute + second)))))
    ensures DecimalValue(year + (month + (day + (hour + (minute + second)))))
            == DateTimeKey(DateTime(DecimalValue(year), DecimalValue(month), DecimalValue(day),
                                    DecimalValue(hour), DecimalValue(minute), DecimalValue(second)))
  {
    assert Pow10(2) == 100;
    assert Pow10(4) == 10000;
    assert Pow10(6) == 1000000;
    assert Pow10(8) == 100000000;
    assert Pow10(10) == 10000000000;
    DecimalConcat(minute, second);
    DecimalConcat(hour, minute + second);
    DecimalConcat(day, hour + (minute + second));
    DecimalConcat(month, day + (hour + (minute + second)));
    DecimalConcat(year, month + (day + (hour + (minute + second))));
  }

  /** For a name without `-`, the intended key parses the text between the
      first `_` and the next `.`. */
  lemma {:induction false} IntendedStem(id: string, t: string, ext: string)
    requires '_' !in id && '.' !in t
    requires '-' !in id + "_" + t + "." + ext
    ensures IntendedTimestamp(id + "_" + t + "." + ext)
            == ParseInt(Replace(Replace(t, "__", "_"), "_", ""))
  {
    var r := t + "." + ext;
    assert id + "_" + t + "." + ext == id + "_" + r;
    AfterFirstUnderscore(id, r);
    assert r == t + ("." + ext);
    StemBeforeDot(t, "." + ext);
  }

  /** The text after the first `_` of `id + "_" + r`, where `id` holds no
      `_`, is `r`. */
  lemma {:induction false} AfterFirstUnderscore(id: string, r: string)
    requires '_' !in id
    ensures Find(id + "_" + r, '_') == |id|
    ensures (id + "_" + r)[|id| + 1..] == r
  {
    assert id + "_" + r == id + ("_" + r);
    FindConcat(id, "_" + r, '_');
  }

  /** A camera name holds no `-`. */
  lemma {:induction false} CameraNameHasNoHyphen(id: string, year: string, month: string, day: string,
                              hour: string, minute: string, second: string, ext: string)
    requires IsCameraName(id, year, month, day, hour, minute, second, ext)
    ensures '-' !in CameraName(id, year, month, day, hour, minute, second, ext)
  {
    var t := DateTimeText(year, month, day, hour, minute, second);
    var name := CameraName(id, year, month, day, hour, minute, second, ext);
    DateTimeTextHasNoHyphenOrDot(year, month, day, hour, minute, second);
    assert name == id + "_" + t + "." + ext;
    forall k | 0 <= k < |name| ensures name[k] != '-' {
      if k < |id| { assert name[k] == id[k]; }
      else if k == |id| { }
      else if k < |id| + 1 + |t| { assert name[k] == t[k - |id| - 1]; }
      else if k == |id| + 1 + |t| { }
      else { assert name[k] == ext[k - |id| - 2 - |t|]; }
    }
  }

  /** The intended key of a camera name is its full date-time
      `yyyymmddhhmmss`. */
  lemma {:induction false} IntendedCameraKey(id: string, year: string, month: string, day: string,
                          hour: string, minute: string, second: string, ext: string)
    requires IsCameraName(id, year, month, day, hour, minute, second, ext)
    ensures IntendedTimestamp(CameraName(id, year, month, day, hour, minute, second, ext))
            == Ok(DateTimeKey(DateTime(DecimalValue(year), DecimalValue(month), DecimalValue(day),
                                       DecimalValue(hour), DecimalValue(minute), DecimalValue(second))))
  {
    var t := DateTimeText(year, month, day, hour, minute, second);
    DateTimeTextHasNoHyphenOrDot(year, month, day, hour, minute, second);
    CameraNameHasNoHyphen(id, year, month, day, hour, minute, second, ext);
    IntendedStem(id, t, ext);
    CollapseDateTime(year, month, day, hour, minute, second);
    DropDateTimeSeparators(year, month, day, hour, minute, second);
    DateTimeDigitsValue(year, month, day, hour, minute, second);
    ParseDigits(year + (month + (day + (hour + (minute + second)))));
  }

  lemma {:induction false} TwoDigitValues()
    ensures DecimalValue("01") == 1 && DecimalValue("02") == 2 && DecimalValue("03") == 3
    ensures DecimalValue("04") == 4 && DecimalValue("05") == 5 && DecimalValue("12") == 12
    ensures DecimalValue("31") == 31 && DecimalValue("23") == 23 && DecimalValue("59") == 59
  {
    DecimalValueSnoc("0", '1');
    DecimalValueSnoc("0", '2');
    DecimalValueSnoc("0", '3');
    DecimalValueSnoc("0", '4');
    DecimalValueSnoc("0", '5');
    DecimalValueSnoc("1", '2');
    DecimalValueSnoc("3", '1');
    DecimalValueSnoc("2", '3');
    DecimalValueSnoc("5", '9');
  }

  /** With the intended key the two example frames of 2023 are told apart
      and come in calendar order. */
  lemma {:induction false} CameraExampleIntended()
    ensures IntendedTimestamp("cam1_2023_01_02__03__04__05.png") == Ok(20230102030405)
    ensures IntendedTimestamp("cam1_2023_12_31__23__59__59.png") == Ok(20231231235959)
  {
    CameraExampleNames();
    IntendedCameraKey("cam1", "2023", "01", "02", "03", "04", "05", "png");
    IntendedCameraKey("cam1", "2023", "12", "31", "23", "59", "59", "png");
    DecimalYear();
    TwoDigitValues();
  }
}
