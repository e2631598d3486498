/**
 * Assembly listings (crates/retroc-file/src/listing/asm.rs): one `<address> <entry> <text>`
 * line per entry, address and entry written as dotted groups.
 */
module ListingAsm {
  import opened Wrappers
  import opened Strings
  import opened Arith
  import opened ListingCore
  import opened Seqs

  const MissingEntry := "missing entry"

  /** `grouped_value_to_bytes` does not shift by 128 bits or more: at most 16 bytes. */
  predicate BytesFit(cfg: ListingConfig) {
    TotalBits(cfg.base, cfg.entryGroupWidth, cfg.entryGroups) == 0 ||
    TotalBytes(cfg.base, cfg.entryGroupWidth, cfg.entryGroups) <= 16
  }

  /**
   * `splitn(3, char::is_whitespace)` of a trimmed line: the address token, the entry
   * token and the rest (`""` when absent), or `None` when there is no entry token.  The
   * first token always exists, so the source's "missing address" error cannot occur.
   */
  function Fields(line: string): (r: Option<(string, string, string)>)
    ensures r.Some? ==> NoWs(r.value.0) && NoWs(r.value.1)
    ensures r.None? <==> NoWs(line)
  {
    var (a, r1) := SplitWs(line);
    if r1.None? then None
    else
      var (e, r2) := SplitWs(r1.value);
      Some((a, e, r2.GetOr([])))
  }

  /** Parsing `line` does not panic: each number that is parsed fits its shifts, and so do its bytes. */
  predicate LineSafe(line: string, cfg: ListingConfig) {
    match Fields(line)
    case None => true
    case Some((a, e, _)) =>
      2 <= cfg.base <= 16 &&
      ShiftsFit(a, cfg.base, Some(cfg.addrGroups)) &&
      (ParseGrouped(a, cfg.base, Some(cfg.addrGroups)).Ok? ==>
        ShiftsFit(e, cfg.base, Some(cfg.entryGroups)) &&
        (ParseGrouped(e, cfg.base, Some(cfg.entryGroups)).Ok? ==> BytesFit(cfg)))
  }

  /** The body of the loop of `parse_asm_listing` for one non-blank trimmed line. */
  function ParseLine(line: string, cfg: ListingConfig): (r: Result<ListingEntry>)
    requires LineSafe(line, cfg)
  {
    match Fields(line)
    case None => Err(MissingEntry)
    case Some((a, e, rest)) =>
      match ParseGrouped(a, cfg.base, Some(cfg.addrGroups))
      case Err(m) => Err(m)
      case Ok(addr) =>
        match ParseGrouped(e, cfg.base, Some(cfg.entryGroups))
        case Err(m) => Err(m)
        case Ok(entry) =>
          Ok(ListingEntry(addr % U64, ToBytes(entry, cfg.base, cfg.entryGroupWidth, cfg.entryGroups), rest))
  }

  /** `es` in front of a successful result; an error is kept. */
  function Prepend(es: seq<ListingEntry>, r: Result<seq<ListingEntry>>): Result<seq<ListingEntry>> {
    match r
    case Ok(rest) => Ok(es + rest)
    case Err(m) => Err(m)
  }

  /** No line reached by the parse panics: lines after the first failing one are never read. */
  predicate RawSafe(lines: seq<string>, cfg: ListingConfig)
    decreases |lines|
  {
    if lines == [] then true
    else
      var t := Trim(lines[0]);
      if t == [] then RawSafe(lines[1..], cfg)
      else LineSafe(t, cfg) && (ParseLine(t, cfg).Ok? ==> RawSafe(lines[1..], cfg))
  }

  /** The loop of `parse_asm_listing`: skip blank lines, stop at the first error. */
  function ParseRaw(lines: seq<string>, cfg: ListingConfig): Result<seq<ListingEntry>>
    requires RawSafe(lines, cfg)
    decreases |lines|
  {
    if lines == [] then Ok([])
    else
      var t := Trim(lines[0]);
      if t == [] then ParseRaw(lines[1..], cfg)
      else
        match ParseLine(t, cfg)
        case Err(m) => Err(m)
        case Ok(e) => Prepend([e], ParseRaw(lines[1..], cfg))
  }

  /** `parse_asm_listing(text, cfg)`. */
  function ParseAsm(text: string, cfg: ListingConfig): Result<seq<ListingEntry>>
    requires RawSafe(Lines(text), cfg)
  {
    ParseRaw(Lines(text), cfg)
  }

  /** Each of the lines parses, to the entry at the same position. */
  predicate ParsedAll(ls: seq<string>, es: seq<ListingEntry>, cfg: ListingConfig) {
    |es| == |ls| && forall i :: 0 <= i < |ls| ==> LineSafe(ls[i], cfg) && ParseLine(ls[i], cfg) == Ok(es[i])
  }

  /** The first `n` lines parse. */
  predicate PrefixOk(ls: seq<string>, n: nat, cfg: ListingConfig)
    requires n <= |ls|
  {
    forall j :: 0 <= j < n ==> LineSafe(ls[j], cfg) && ParseLine(ls[j], cfg).Ok?
  }

  /** The lines before position `i` parse and line `i` fails with `m`. */
  predicate FailsAt(ls: seq<string>, i: nat, m: string, cfg: ListingConfig) {
    i < |ls| && PrefixOk(ls, i, cfg) && LineSafe(ls[i], cfg) && ParseLine(ls[i], cfg) == Err(m)
  }

  lemma ParsedAllCons(t: string, ls: seq<string>, e: ListingEntry, es: seq<ListingEntry>, cfg: ListingConfig)
    requires LineSafe(t, cfg) && ParseLine(t, cfg) == Ok(e) && ParsedAll(ls, es, cfg)
    ensures ParsedAll([t] + ls, [e] + es, cfg)
  {
    var ls', es' := [t] + ls, [e] + es;
    forall i | 0 <= i < |ls'| ensures LineSafe(ls'[i], cfg) && ParseLine(ls'[i], cfg) == Ok(es'[i]) {
      if i > 0 {
        assert ls'[i] == ls[i - 1] && es'[i] == es[i - 1];
      }
    }
  }

  lemma FailsAtCons(t: string, ls: seq<string>, i: nat, m: string, cfg: ListingConfig)
    requires LineSafe(t, cfg) && ParseLine(t, cfg).Ok? && FailsAt(ls, i, m, cfg)
    ensures FailsAt([t] + ls, i + 1, m, cfg)
  {
    PrefixOkCons(t, ls, i, cfg);
    assert ([t] + ls)[i + 1] == ls[i];
  }

  lemma PrefixOkCons(t: string, ls: seq<string>, n: nat, cfg: ListingConfig)
    requires LineSafe(t, cfg) && ParseLine(t, cfg).Ok? && n <= |ls| && PrefixOk(ls, n, cfg)
    ensures PrefixOk([t] + ls, n + 1, cfg)
  {
    var ls' := [t] + ls;
    forall j | 0 <= j < n + 1 ensures LineSafe(ls'[j], cfg) && ParseLine(ls'[j], cfg).Ok? {
      if j > 0 {
        assert ls'[j] == ls[j - 1];
      }
    }
  }

  /**
   * The parse yields one entry per non-blank line, in order, each the parse of that
   * trimmed line; or it fails with the error of the first line that fails.
   */
  lemma {:induction false} ParseRawEntries(lines: seq<string>, cfg: ListingConfig)
    requires RawSafe(lines, cfg)
    ensures ParseRaw(lines, cfg).Ok? ==> ParsedAll(NonBlank(lines), ParseRaw(lines, cfg).value, cfg)
    ensures ParseRaw(lines, cfg).Err? ==>
      exists i: nat :: FailsAt(NonBlank(lines), i, ParseRaw(lines, cfg).error, cfg)
    decreases |lines|
  {
    if lines != [] {
      var t := Trim(lines[0]);
      var nb, rest := NonBlank(lines), NonBlank(lines[1..]);
      if t == [] {
        ParseRawEntries(lines[1..], cfg);
      } else {
        assert nb == [t] + rest;
        var r := ParseLine(t, cfg);
        if r.Ok? {
          ParseRawEntries(lines[1..], cfg);
          var tail := ParseRaw(lines[1..], cfg);
          assert ParseRaw(lines, cfg) == Prepend([r.value], tail);
          if tail.Ok? {
            ParsedAllCons(t, rest, r.value, tail.value, cfg);
          } else {
            var i: nat :| FailsAt(rest, i, tail.error, cfg);
            FailsAtCons(t, rest, i, tail.error, cfg);
          }
        } else {
          assert FailsAt(nb, 0, r.error, cfg);
        }
      }
    }
  }

  /** A non-blank line with one token and nothing after it fails with "missing entry". */
  lemma MissingEntryLine(line: string, cfg: ListingConfig)
    requires NoWs(line)
    ensures LineSafe(line, cfg) && ParseLine(line, cfg) == Err(MissingEntry)
  {
  }

  /**
   * A line fails only with "missing entry" or a `parse_grouped_number` error, which is
   * passed on unchanged: in particular a token with the wrong group count fails the line
   * with "group count mismatch".
   */
  lemma ParseLineErrors(line: string, cfg: ListingConfig)
    requires LineSafe(line, cfg)
    ensures ParseLine(line, cfg).Err? ==>
      ParseLine(line, cfg).error in {MissingEntry, GroupCountMismatch, InvalidGroupDigits}
    ensures Fields(line).Some? && |Split(Fields(line).value.0, '.')| != cfg.addrGroups ==>
      ParseLine(line, cfg) == Err(GroupCountMismatch)
    ensures (&& Fields(line).Some?
             && ParseGrouped(Fields(line).value.0, cfg.base, Some(cfg.addrGroups)).Ok?
             && |Split(Fields(line).value.1, '.')| != cfg.entryGroups) ==>
      ParseLine(line, cfg) == Err(GroupCountMismatch)
  {
    if Fields(line).Some? {
      var (a, e, _) := Fields(line).value;
      ParseGroupedErrors(a, cfg.base, Some(cfg.addrGroups));
      if ParseGrouped(a, cfg.base, Some(cfg.addrGroups)).Ok? {
        ParseGroupedErrors(e, cfg.base, Some(cfg.entryGroups));
      }
    }
  }

  /** One line of `parse_asm_listing`: the `?` returns of the source become early returns. */
  method ParseAsmLine(line: string, cfg: ListingConfig) returns (r: Result<ListingEntry>)
    requires LineSafe(line, cfg)
    ensures r == ParseLine(line, cfg)
  {
    var (a, r1) := SplitWs(line);
    if r1.None? {
      return Err(MissingEntry);
    }
    var (e, r2) := SplitWs(r1.value);
    var rest := r2.GetOr([]);
    var addrVal := ParseGroupedNumber(a, cfg.base, Some(cfg.addrGroups));
    if addrVal.Err? {
      return Err(addrVal.error);
    }
    var entryVal := ParseGroupedNumber(e, cfg.base, Some(cfg.entryGroups));
    if entryVal.Err? {
      return Err(entryVal.error);
    }
    var bytes := GroupedValueToBytes(entryVal.value, cfg.base, cfg.entryGroupWidth, cfg.entryGroups);
    return Ok(ListingEntry(addrVal.value % U64, bytes, rest));
  }

  /** `parse_asm_listing`: the loop over `lines()`, pushing one entry per non-blank line. */
  method ParseAsmListing(text: string, cfg: ListingConfig) returns (r: Result<seq<ListingEntry>>)
    requires RawSafe(Lines(text), cfg)
    ensures r == ParseAsm(text, cfg)
  {
    var lines := Lines(text);
    var out: seq<ListingEntry> := [];
    var i := 0;
    assert lines[0..] == lines;
    PrependNothing(ParseRaw(lines, cfg));
    while i < |lines|
      invariant i <= |lines|
      invariant RawSafe(lines[i..], cfg)
      invariant Prepend(out, ParseRaw(lines[i..], cfg)) == ParseRaw(lines, cfg)
    {
      ParseRawStep(lines, i, cfg);
      var line := Trim(lines[i]);
      if line != [] {
        var entry := ParseAsmLine(line, cfg);
        if entry.Err? {
          return Err(entry.error);
        }
        PrependAssoc(out, entry.value, ParseRaw(lines[i + 1..], cfg));
        out := out + [entry.value];
      }
      i := i + 1;
    }
    assert lines[i..] == [];
    assert out + [] == out;
    return Ok(out);
  }

  /** One line of the loop: a blank line is skipped, a failing line ends the parse, any other is prepended. */
  lemma ParseRawStep(lines: seq<string>, i: nat, cfg: ListingConfig)
    requires i < |lines| && RawSafe(lines[i..], cfg)
    ensures Trim(lines[i]) == [] ==>
      RawSafe(lines[i + 1..], cfg) && ParseRaw(lines[i..], cfg) == ParseRaw(lines[i + 1..], cfg)
    ensures Trim(lines[i]) != [] ==> LineSafe(Trim(lines[i]), cfg)
    ensures Trim(lines[i]) != [] && ParseLine(Trim(lines[i]), cfg).Err? ==>
      ParseRaw(lines[i..], cfg) == Err(ParseLine(Trim(lines[i]), cfg).error)
    ensures Trim(lines[i]) != [] && ParseLine(Trim(lines[i]), cfg).Ok? ==>
      && RawSafe(lines[i + 1..], cfg)
      && ParseRaw(lines[i..], cfg) == Prepend([ParseLine(Trim(lines[i]), cfg).value], ParseRaw(lines[i + 1..], cfg))
  {
    assert lines[i..][0] == lines[i] && lines[i..][1..] == lines[i + 1..];
  }

  lemma PrependNothing(r: Result<seq<ListingEntry>>)
    ensures Prepend([], r) == r
  {
    if r.Ok? {
      assert [] + r.value == r.value;
    }
  }

  lemma PrependAssoc(out: seq<ListingEntry>, e: ListingEntry, r: Result<seq<ListingEntry>>)
    ensures Prepend(out, Prepend([e], r)) == Prepend(out + [e], r)
  {
    if r.Ok? {
      assert out + ([e] + r.value) == out + [e] + r.value;
    }
  }

  // ---------------------------------------------------------------- printing

  /** `format_grouped_number` does not panic for the address or the entry: `base^w` fits in `u128`. */
  predicate PrintSafe(cfg: ListingConfig) {
    (cfg.base == 8 || cfg.base == 16) &&
    (cfg.addrGroups == 0 || Pow(cfg.base, cfg.addrGroupWidth) < U128) &&
    (cfg.entryGroups == 0 || Pow(cfg.base, cfg.entryGroupWidth) < U128)
  }

  /** The line `print_asm_listing` writes for one entry, without its line feed. */
  function AsmLine(e: ListingEntry, cfg: ListingConfig): string
    requires cfg.base == 8 || cfg.base == 16
  {
    var addr := FormatGrouped(e.address, cfg, cfg.addrGroups, cfg.addrGroupWidth);
    var entry := FormatGrouped(BytesValue(e.bytes), cfg, cfg.entryGroups, cfg.entryGroupWidth);
    Joined(addr, entry, e.text)
  }

  function AsmLines(es: seq<ListingEntry>, cfg: ListingConfig): (r: seq<string>)
    requires cfg.base == 8 || cfg.base == 16
    ensures |r| == |es|
  {
    seq(|es|, i requires 0 <= i < |es| => AsmLine(es[i], cfg))
  }

  /** `print_asm_listing(entries, cfg)`: every entry's line, each followed by a line feed. */
  function PrintAsm(es: seq<ListingEntry>, cfg: ListingConfig): string
    requires cfg.base == 8 || cfg.base == 16
  {
    Terminated(AsmLines(es, cfg))
  }

  /** `print_asm_listing`: per entry, format the address, fold the bytes into a value, format it, append the line. */
  method PrintAsmListing(entries: seq<ListingEntry>, cfg: ListingConfig) returns (s: string)
    requires PrintSafe(cfg)
    ensures s == PrintAsm(entries, cfg)
  {
    s := [];
    for i := 0 to |entries|
      invariant s == Terminated(AsmLines(entries[..i], cfg))
    {
      var e := entries[i];
      var addr := FormatGroupedNumber(e.address, cfg, cfg.addrGroups, cfg.addrGroupWidth);
      var val := 0;
      for j := 0 to |e.bytes|
        invariant val == BytesValue(e.bytes[..j])
      {
        assert e.bytes[..j + 1][..j] == e.bytes[..j];
        val := Shl128(val, 8) + e.bytes[j];  // `(val << 8) | b`: the low byte of the shifted value is clear
      }
      assert e.bytes[..|e.bytes|] == e.bytes;
      var entry := FormatGroupedNumber(val, cfg, cfg.entryGroups, cfg.entryGroupWidth);
      var line := if e.text == [] then addr + " " + entry else addr + " " + entry + " " + e.text;
      AsmLinesSnoc(entries, i, cfg);
      TerminatedSnoc(AsmLines(entries[..i], cfg), line);
      s := s + line + "\n";
    }
    assert entries[..|entries|] == entries;
  }

  lemma AsmLinesSnoc(es: seq<ListingEntry>, i: nat, cfg: ListingConfig)
    requires (cfg.base == 8 || cfg.base == 16) && i < |es|
    ensures AsmLines(es[..i + 1], cfg) == AsmLines(es[..i], cfg) + [AsmLine(es[i], cfg)]
  {
    var a, b := AsmLines(es[..i + 1], cfg), AsmLines(es[..i], cfg) + [AsmLine(es[i], cfg)];
    forall k | 0 <= k <= i ensures a[k] == b[k] {
      assert es[..i + 1][k] == es[k];
      if k < i {
        assert es[..i][k] == es[k];
      }
    }
  }

  /** Layouts whose numbers read back: both bases, non-empty groups, every shift below 128 bits. */
  predicate RoundTripConfig(cfg: ListingConfig) {
    && (cfg.base == 8 || cfg.base == 16)
    && cfg.addrGroups >= 1 && cfg.addrGroupWidth >= 1 && cfg.entryGroups >= 1 && cfg.entryGroupWidth >= 1
    && TotalBits(cfg.base, cfg.addrGroupWidth, cfg.addrGroups) <= 128
    && DigitBits(cfg.base, cfg.addrGroupWidth) < 128
    && TotalBits(cfg.base, cfg.entryGroupWidth, cfg.entryGroups) <= 128
    && DigitBits(cfg.base, cfg.entryGroupWidth) < 128
  }

  /**
   * What a printed entry reads back as: the address and the bytes' value reduced to the
   * bits their groups hold, the value written back as the entry's bytes, the text kept.
   */
  function Reparsed(e: ListingEntry, cfg: ListingConfig): (r: ListingEntry)
    requires RoundTripConfig(cfg)
    ensures r.text == e.text
    ensures |r.bytes| == TotalBytes(cfg.base, cfg.entryGroupWidth, cfg.entryGroups)
  {
    var addr := e.address % Pow(2, TotalBits(cfg.base, cfg.addrGroupWidth, cfg.addrGroups));
    var entry := BytesValue(e.bytes) % Pow(2, TotalBits(cfg.base, cfg.entryGroupWidth, cfg.entryGroups));
    ModAtMost(e.address, Pow(2, TotalBits(cfg.base, cfg.addrGroupWidth, cfg.addrGroups)));
    ListingEntry(addr, ToBytes(entry, cfg.base, cfg.entryGroupWidth, cfg.entryGroups), e.text)
  }

  /** The line `print_asm_listing` writes from its three fields. */
  function Joined(a: string, n: string, t: string): string {
    if t == [] then a + " " + n else a + " " + n + " " + t
  }

  /** Two tokens and a text that keeps: the line is trimmed, has no line feed, and splits back into them. */
  lemma JoinedFields(a: string, n: string, t: string)
    requires a != [] && n != [] && NoWs(a) && NoWs(n) && KeepsText(t)
    ensures var l := Joined(a, n, t);
      && l != [] && '\n' !in l && Trim(l) == l
      && Fields(l) == Some((a, n, t))
  {
    var l := Joined(a, n, t);
    NoWsNoLineFeed(a);
    NoWsNoLineFeed(n);
    if t == [] {
      SplitWsAt(a, ' ', n);
      SplitWsWhole(n);
      assert l[|l| - 1] == n[|n| - 1];
    } else {
      assert l == a + [' '] + (n + [' '] + t);
      SplitWsAt(a, ' ', n + [' '] + t);
      SplitWsAt(n, ' ', t);
      assert l[|l| - 1] == t[|t| - 1];
    }
    assert l[0] == a[0];
    TrimKeeps(l);
  }

  /** A printed line is one trimmed, line-feed-free line that parses back to `Reparsed(e)`. */
  lemma AsmLineRoundTrip(e: ListingEntry, cfg: ListingConfig)
    requires RoundTripConfig(cfg) && KeepsText(e.text)
    ensures var l := AsmLine(e, cfg);
      && l != [] && '\n' !in l && Trim(l) == l
      && LineSafe(l, cfg) && ParseLine(l, cfg) == Ok(Reparsed(e, cfg))
  {
    var base := cfg.base;
    var a := FormatGrouped(e.address, cfg, cfg.addrGroups, cfg.addrGroupWidth);
    var v := BytesValue(e.bytes);
    var n := FormatGrouped(v, cfg, cfg.entryGroups, cfg.entryGroupWidth);
    assert AsmLine(e, cfg) == Joined(a, n, e.text);
    FormatGroupedText(e.address, cfg, cfg.addrGroups, cfg.addrGroupWidth);
    FormatGroupedText(v, cfg, cfg.entryGroups, cfg.entryGroupWidth);
    DotDigitsText(a, base);
    DotDigitsText(n, base);
    JoinedFields(a, n, e.text);
    FormatParseRoundTrip(e.address, cfg, cfg.addrGroups, cfg.addrGroupWidth);
    FormatParseRoundTrip(v, cfg, cfg.entryGroups, cfg.entryGroupWidth);
    var addr := e.address % Pow(2, TotalBits(base, cfg.addrGroupWidth, cfg.addrGroups));
    ModAtMost(e.address, Pow(2, TotalBits(base, cfg.addrGroupWidth, cfg.addrGroups)));
    ModBelow(addr, U64);
  }

  /** Parsing lines that each parse, followed by the empty piece after the last line feed. */
  lemma {:induction false} ParseRawAllOk(ls: seq<string>, out: seq<ListingEntry>, cfg: ListingConfig)
    requires forall i :: 0 <= i < |ls| ==> ls[i] != [] && Trim(ls[i]) == ls[i]
    requires ParsedAll(ls, out, cfg)
    ensures RawSafe(ls + [[]], cfg) && ParseRaw(ls + [[]], cfg) == Ok(out)
    decreases |ls|
  {
    if ls == [] {
      var empty: seq<string> := [];
      assert ls + [[]] == [[]] && [[]][1..] == empty;
    } else {
      var ls', out' := ls[1..], out[1..];
      HeadTailSnoc(ls, []);
      ParsedAllTail(ls, out, cfg);
      forall i | 0 <= i < |ls'| ensures ls'[i] != [] && Trim(ls'[i]) == ls'[i] {
        assert ls'[i] == ls[i + 1];
      }
      ParseRawAllOk(ls', out', cfg);
      ParseRawCons(ls[0], ls' + [[]], cfg);
      HeadTail(out);
    }
  }

  /** A trimmed line that parses, in front of lines that parse safely. */
  lemma ParseRawCons(t: string, rest: seq<string>, cfg: ListingConfig)
    requires t != [] && Trim(t) == t && LineSafe(t, cfg) && ParseLine(t, cfg).Ok? && RawSafe(rest, cfg)
    ensures RawSafe([t] + rest, cfg)
    ensures ParseRaw([t] + rest, cfg) == Prepend([ParseLine(t, cfg).value], ParseRaw(rest, cfg))
  {
    assert ([t] + rest)[0] == t && ([t] + rest)[1..] == rest;
  }

  lemma ParsedAllTail(ls: seq<string>, es: seq<ListingEntry>, cfg: ListingConfig)
    requires ls != [] && ParsedAll(ls, es, cfg)
    ensures LineSafe(ls[0], cfg) && ParseLine(ls[0], cfg) == Ok(es[0])
    ensures ParsedAll(ls[1..], es[1..], cfg)
  {
    forall i | 0 <= i < |ls| - 1 ensures LineSafe(ls[1..][i], cfg) && ParseLine(ls[1..][i], cfg) == Ok(es[1..][i]) {
      assert ls[1..][i] == ls[i + 1] && es[1..][i] == es[i + 1];
    }
  }

  /**
   * Printing then parsing gives back one entry per entry, each as `Reparsed` describes:
   * the address and the entry value reduced to `d*w*g` bits, the text unchanged.
   */
  lemma PrintParseRoundTrip(es: seq<ListingEntry>, cfg: ListingConfig)
    requires RoundTripConfig(cfg)
    requires forall i :: 0 <= i < |es| ==> KeepsText(es[i].text)
    ensures RawSafe(Lines(PrintAsm(es, cfg)), cfg)
    ensures ParseAsm(PrintAsm(es, cfg), cfg) == Ok(seq(|es|, i requires 0 <= i < |es| => Reparsed(es[i], cfg)))
  {
    var ls := AsmLines(es, cfg);
    var out := seq(|es|, i requires 0 <= i < |es| => Reparsed(es[i], cfg));
    forall i | 0 <= i < |ls|
      ensures ls[i] != [] && '\n' !in ls[i] && Trim(ls[i]) == ls[i]
      ensures LineSafe(ls[i], cfg) && ParseLine(ls[i], cfg) == Ok(out[i])
    {
      AsmLineRoundTrip(es[i], cfg);
    }
    LinesOfTerminated(ls);
    ParseRawAllOk(ls, out, cfg);
  }

  /** An entry as the parser produces it for a printed line: no bits beyond its groups, and a full set of bytes. */
  predicate Canonical(e: ListingEntry, cfg: ListingConfig)
    requires RoundTripConfig(cfg)
  {
    && e.address < Pow(2, TotalBits(cfg.base, cfg.addrGroupWidth, cfg.addrGroups))
    && |e.bytes| == TotalBytes(cfg.base, cfg.entryGroupWidth, cfg.entryGroups)
    && BytesValue(e.bytes) < Pow(2, TotalBits(cfg.base, cfg.entryGroupWidth, cfg.entryGroups))
  }

  /** Canonical entries with such texts come back exactly: parsing is a left inverse of printing. */
  lemma PrintParseIdentity(es: seq<ListingEntry>, cfg: ListingConfig)
    requires RoundTripConfig(cfg)
    requires forall i :: 0 <= i < |es| ==> KeepsText(es[i].text) && Canonical(es[i], cfg)
    ensures RawSafe(Lines(PrintAsm(es, cfg)), cfg)
    ensures ParseAsm(PrintAsm(es, cfg), cfg) == Ok(es)
  {
    PrintParseRoundTrip(es, cfg);
    forall i | 0 <= i < |es| ensures Reparsed(es[i], cfg) == es[i] {
      CanonicalReparsed(es[i], cfg);
    }
    assert seq(|es|, i requires 0 <= i < |es| => Reparsed(es[i], cfg)) == es;
  }

  lemma CanonicalReparsed(e: ListingEntry, cfg: ListingConfig)
    requires RoundTripConfig(cfg) && Canonical(e, cfg)
    ensures Reparsed(e, cfg) == e
  {
    var base, egw, eg := cfg.base, cfg.entryGroupWidth, cfg.entryGroups;
    ModBelow(e.address, Pow(2, TotalBits(base, cfg.addrGroupWidth, cfg.addrGroups)));
    ModBelow(BytesValue(e.bytes), Pow(2, TotalBits(base, egw, eg)));
    assert TotalBits(base, egw, eg) > 0 by {
      assert DigitBits(base, egw) >= 3;
      MulMono(1, eg, 3, DigitBits(base, egw));
    }
    BytesOfBytesValue(e.bytes);
  }
}
