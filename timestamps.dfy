/**
 * The purge condition of `delete_old_articles` in terms of the text SQLite
 * compares. `fetched_at` is stored as Python's `isoformat()` text (date and time
 * joined by `T`); the cutoff `datetime('now', '-N days')` is SQLite's text (joined
 * by a space); `<` between two texts is byte order.
 */
module Timestamps {
  /** A moment to the second, as both renderings spell it. */
  datatype Moment = Moment(year: nat, month: nat, day: nat, hour: nat, minute: nat, second: nat)

  predicate Representable(m: Moment)
  {
    1 <= m.year <= 9999 && 1 <= m.month <= 12 && 1 <= m.day <= 31
    && m.hour < 24 && m.minute < 60 && m.second < 60
  }

  /** Chronological order of two moments. */
  predicate Before(a: Moment, b: Moment)
  {
    || a.year < b.year
    || (a.year == b.year && a.month < b.month)
    || (a.year == b.year && a.month == b.month && a.day < b.day)
    || (a.year == b.year && a.month == b.month && a.day == b.day && a.hour < b.hour)
    || (a.year == b.year && a.month == b.month && a.day == b.day && a.hour == b.hour && a.minute < b.minute)
    || (a.year == b.year && a.month == b.month && a.day == b.day && a.hour == b.hour && a.minute == b.minute
        && a.second < b.second)
  }

  function Pow10(w: nat): nat
  {
    if w == 0 then 1 else 10 * Pow10(w - 1)
  }

  function DigitChar(d: nat): char
    requires d < 10
  {
    ('0' as int + d) as char
  }

  /** `n` written in `w` decimal digits with leading zeros. */
  function Digits(n: nat, w: nat): (s: string)
    ensures |s| == w
  {
    if w == 0 then "" else Digits(n / 10, w - 1) + [DigitChar(n % 10)]
  }

  /** Byte order on texts, as SQLite's default collation compares them. */
  predicate TextLess(a: string, b: string)
  {
    if a == [] then b != []
    else if b == [] then false
    else if a[0] != b[0] then a[0] < b[0]
    else TextLess(a[1..], b[1..])
  }

  /** The rendering `YYYY-MM-DD?HH:MM:SS` with `sep` between date and time. */
  function Render(m: Moment, sep: char): string
  {
    Digits(m.year, 4) + ("-" + (Digits(m.month, 2) + ("-" + (Digits(m.day, 2) + ([sep] +
      (Digits(m.hour, 2) + (":" + (Digits(m.minute, 2) + (":" + Digits(m.second, 2))))))))))
  }

  /** `datetime.isoformat()` for a moment without microseconds. */
  function IsoText(m: Moment): string
  {
    Render(m, 'T')
  }

  /** SQLite's `datetime(...)` text. */
  function SqlText(m: Moment): string
  {
    Render(m, ' ')
  }

  /** The condition `fetched_at < datetime('now', ?)` as the source writes it. */
  predicate PurgedAsWritten(fetched: Moment, cutoff: Moment)
  {
    TextLess(IsoText(fetched), SqlText(cutoff))
  }

  /** The condition with both sides in SQLite's format, `datetime(fetched_at) < datetime('now', ?)`. */
  predicate PurgedCorrected(fetched: Moment, cutoff: Moment)
  {
    TextLess(SqlText(fetched), SqlText(cutoff))
  }

  /** Comparing two texts with heads of equal length: the heads decide unless they are equal. */
  lemma {:induction false} TextLessAppend(p: string, q: string, x: string, y: string)
    requires |p| == |q|
    ensures TextLess(p + x, q + y) == (TextLess(p, q) || (p == q && TextLess(x, y)))
  {
    if p == [] {
      assert p + x == x && q + y == y;
    } else {
      assert (p + x)[0] == p[0] && (q + y)[0] == q[0];
      assert (p + x)[1..] == p[1..] + x;
      assert (q + y)[1..] == q[1..] + y;
      TextLessAppend(p[1..], q[1..], x, y);
      if p[0] == q[0] {
        assert p == q <==> p[1..] == q[1..];
      }
    }
  }

  lemma {:induction false} TextLessIrreflexive(s: string)
    ensures !TextLess(s, s)
  {
    if s != [] {
      TextLessIrreflexive(s[1..]);
    }
  }

  /** Fixed-width decimal texts compare in byte order exactly as the numbers do. */
  lemma {:induction false} DigitsOrder(a: nat, b: nat, w: nat)
    requires a < Pow10(w) && b < Pow10(w)
    ensures TextLess(Digits(a, w), Digits(b, w)) <==> a < b
    ensures Digits(a, w) == Digits(b, w) <==> a == b
  {
    if w > 0 {
      DigitsOrder(a / 10, b / 10, w - 1);
      TextLessAppend(Digits(a / 10, w - 1), Digits(b / 10, w - 1), [DigitChar(a % 10)], [DigitChar(b % 10)]);
      assert a == 10 * (a / 10) + a % 10;
      assert b == 10 * (b / 10) + b % 10;
      if Digits(a, w) == Digits(b, w) {
        assert Digits(a, w)[w - 1] == DigitChar(a % 10);
        assert Digits(a / 10, w - 1) == Digits(a, w)[..w - 1];
        assert Digits(b / 10, w - 1) == Digits(b, w)[..w - 1];
      }
    } else {
      TextLessIrreflexive("");
    }
  }

  /** Two moments on the same day differ in their renderings from the separator on. */
  lemma SameDayHead(f: Moment, c: Moment, s1: char, s2: char)
    requires f.year == c.year && f.month == c.month && f.day == c.day
    ensures TextLess(Render(f, s1), Render(c, s2)) == TextLess(Render(f, s1)[10..], Render(c, s2)[10..])
  {
    var head := Digits(f.year, 4) + "-" + Digits(f.month, 2) + "-" + Digits(f.day, 2);
    assert Render(f, s1) == head + Render(f, s1)[10..];
    assert Render(c, s2) == head + Render(c, s2)[10..];
    TextLessAppend(head, head, Render(f, s1)[10..], Render(c, s2)[10..]);
    TextLessIrreflexive(head);
  }

  /**
   * As written, a row fetched on the cutoff's own day is never purged, however early
   * that day it was fetched: `T` sorts after the space at the eleventh character.
   */
  lemma SameDayNeverPurged(fetched: Moment, cutoff: Moment)
    requires fetched.year == cutoff.year && fetched.month == cutoff.month && fetched.day == cutoff.day
    ensures !PurgedAsWritten(fetched, cutoff)
  {
    SameDayHead(fetched, cutoff, 'T', ' ');
    var x := IsoText(fetched)[10..];
    var y := SqlText(cutoff)[10..];
    assert x[0] == 'T' && y[0] == ' ';
  }

  /** A row fetched at 08:00 is older than a 12:00 cutoff on the same day, yet the purge keeps it. */
  lemma PurgeMissesSameDay()
    ensures var fetched := Moment(2024, 5, 1, 8, 0, 0);
      var cutoff := Moment(2024, 5, 1, 12, 0, 0);
      Before(fetched, cutoff) && !PurgedAsWritten(fetched, cutoff)
  {
    SameDayNeverPurged(Moment(2024, 5, 1, 8, 0, 0), Moment(2024, 5, 1, 12, 0, 0));
  }

  /** With both sides in one format the text comparison is exactly chronological order. */
  lemma PurgedCorrectedIsBefore(fetched: Moment, cutoff: Moment)
    requires Representable(fetched) && Representable(cutoff)
    ensures PurgedCorrected(fetched, cutoff) <==> Before(fetched, cutoff)
  {
    var f, c := fetched, cutoff;
    assert Pow10(2) == 100 && Pow10(4) == 10000;
    DigitsOrder(f.year, c.year, 4);
    DigitsOrder(f.month, c.month, 2);
    DigitsOrder(f.day, c.day, 2);
    DigitsOrder(f.hour, c.hour, 2);
    DigitsOrder(f.minute, c.minute, 2);
    DigitsOrder(f.second, c.second, 2);
    TextLessIrreflexive("-");
    TextLessIrreflexive(" ");
    TextLessIrreflexive(":");
    var ss := Digits(f.second, 2);
    var cs := Digits(c.second, 2);
    var fm := Digits(f.minute, 2) + (":" + ss);
    var cm := Digits(c.minute, 2) + (":" + cs);
    TextLessAppend(":", ":", ss, cs);
    TextLessAppend(Digits(f.minute, 2), Digits(c.minute, 2), ":" + ss, ":" + cs);
    var fh := Digits(f.hour, 2) + (":" + fm);
    var ch := Digits(c.hour, 2) + (":" + cm);
    TextLessAppend(":", ":", fm, cm);
    TextLessAppend(Digits(f.hour, 2), Digits(c.hour, 2), ":" + fm, ":" + cm);
    var fd := Digits(f.day, 2) + ([' '] + fh);
    var cd := Digits(c.day, 2) + ([' '] + ch);
    TextLessAppend([' '], [' '], fh, ch);
    TextLessAppend(Digits(f.day, 2), Digits(c.day, 2), [' '] + fh, [' '] + ch);
    var fo := Digits(f.month, 2) + ("-" + fd);
    var co := Digits(c.month, 2) + ("-" + cd);
    TextLessAppend("-", "-", fd, cd);
    TextLessAppend(Digits(f.month, 2), Digits(c.month, 2), "-" + fd, "-" + cd);
    TextLessAppend("-", "-", fo, co);
    TextLessAppend(Digits(f.year, 4), Digits(c.year, 4), "-" + fo, "-" + co);
  }
}
