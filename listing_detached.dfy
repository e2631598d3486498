/**
 * Detached listings (crates/retroc-file/src/listing/detached.rs): the bytes live in a
 * separate raw image and the comment text maps addresses into it, one
 * `<address> <comment>` line per entry; every other line is kept as a plain comment.
 */
module ListingDetached {
  import opened Wrappers
  import opened Strings
  import opened Arith
  import opened ListingCore
  import opened Seqs

  // ---------------------------------------------------------------- parsing

  /** A line read as a mapping: its first token holds a `.`. */
  predicate Dotted(t: string) {
    '.' in SplitWs(t).0
  }

  /** Reading trimmed line `t` does not panic: a dotted first token is parsed with a radix and shifts that fit. */
  predicate DetachedLineSafe(t: string, cfg: ListingConfig) {
    Dotted(t) ==> 2 <= cfg.base <= 16 && ShiftsFit(SplitWs(t).0, cfg.base, Some(cfg.addrGroups))
  }

  /** No line of the comment text panics when read. */
  predicate DetachedSafe(lines: seq<string>, cfg: ListingConfig)
    decreases |lines|
  {
    lines == [] || (DetachedLineSafe(Trim(lines[0]), cfg) && DetachedSafe(lines[1..], cfg))
  }

  /** `DetachedSafe` is the line-by-line condition, in both directions. */
  lemma {:induction false} DetachedSafeAll(lines: seq<string>, cfg: ListingConfig)
    ensures DetachedSafe(lines, cfg) <==> forall i :: 0 <= i < |lines| ==> DetachedLineSafe(Trim(lines[i]), cfg)
    decreases |lines|
  {
    if lines != [] {
      DetachedSafeAll(lines[1..], cfg);
      assert forall i :: 1 <= i < |lines| ==> lines[i] == lines[1..][i - 1];
    }
  }

  /**
   * `raw[offset..min(raw.len(), offset + n)]`, or nothing when the offset is past the
   * end: the longest run of at most `n` raw bytes from the offset.
   */
  function Window(raw: seq<Byte>, off: nat, n: nat): (r: seq<Byte>)
    ensures |r| <= n
    ensures off >= |raw| ==> r == []
    ensures off < |raw| ==> off + |r| <= |raw| && r == raw[off..off + |r|] && (|r| == n || off + |r| == |raw|)
  {
    if off < |raw| then raw[off..if |raw| < off + n then |raw| else off + n] else []
  }

  /** A window that fits in the image is exactly the bytes there. */
  lemma WindowFull(raw: seq<Byte>, off: nat, n: nat)
    requires off + n <= |raw|
    ensures Window(raw, off, n) == raw[off..off + n]
  {
  }

  /**
   * The entry for one non-blank trimmed line: a dotted first token that parses as an
   * address maps the rest of the line to the raw bytes at that offset; anything else
   * is the whole line as a comment, at address 0 and without bytes.
   */
  function DetachedLine(t: string, raw: seq<Byte>, cfg: ListingConfig): (r: ListingEntry)
    requires DetachedLineSafe(t, cfg)
    ensures |r.bytes| <= TotalBytes(cfg.base, cfg.entryGroupWidth, cfg.entryGroups)
    ensures r.bytes != [] ==> r.address + |r.bytes| <= |raw| && r.bytes == raw[r.address..r.address + |r.bytes|]
    ensures !Dotted(t) ==> r == ListingEntry(0, [], t)
    ensures Dotted(t) && ParseGrouped(SplitWs(t).0, cfg.base, Some(cfg.addrGroups)).Err? ==> r == ListingEntry(0, [], t)
  {
    var (first, rest) := SplitWs(t);
    if '.' in first && ParseGrouped(first, cfg.base, Some(cfg.addrGroups)).Ok? then
      var addr := ParseGrouped(first, cfg.base, Some(cfg.addrGroups)).value % U64;
      ListingEntry(addr, Window(raw, addr, TotalBytes(cfg.base, cfg.entryGroupWidth, cfg.entryGroups)), rest.GetOr([]))
    else ListingEntry(0, [], t)
  }

  /** The loop of `parse_detached_listing`: one entry per non-blank line, in order. */
  function DetachedEntries(lines: seq<string>, raw: seq<Byte>, cfg: ListingConfig): seq<ListingEntry>
    requires DetachedSafe(lines, cfg)
    decreases |lines|
  {
    if lines == [] then []
    else
      var t := Trim(lines[0]);
      if t == [] then DetachedEntries(lines[1..], raw, cfg)
      else [DetachedLine(t, raw, cfg)] + DetachedEntries(lines[1..], raw, cfg)
  }

  /** `parse_detached_listing(comments, raw, cfg)`: it never fails. */
  function ParseDetached(comments: string, raw: seq<Byte>, cfg: ListingConfig): Result<seq<ListingEntry>>
    requires DetachedSafe(Lines(comments), cfg)
  {
    Ok(DetachedEntries(Lines(comments), raw, cfg))
  }

  /** Each of the trimmed lines is read as the entry at the same position. */
  predicate ReadsAs(ls: seq<string>, es: seq<ListingEntry>, raw: seq<Byte>, cfg: ListingConfig) {
    |es| == |ls| && forall i :: 0 <= i < |ls| ==> DetachedLineSafe(ls[i], cfg) && DetachedLine(ls[i], raw, cfg) == es[i]
  }

  lemma ReadsAsCons(t: string, ls: seq<string>, es: seq<ListingEntry>, raw: seq<Byte>, cfg: ListingConfig)
    requires DetachedLineSafe(t, cfg) && ReadsAs(ls, es, raw, cfg)
    ensures ReadsAs([t] + ls, [DetachedLine(t, raw, cfg)] + es, raw, cfg)
  {
    var ls', es' := [t] + ls, [DetachedLine(t, raw, cfg)] + es;
    forall i | 0 <= i < |ls'| ensures DetachedLineSafe(ls'[i], cfg) && DetachedLine(ls'[i], raw, cfg) == es'[i] {
      if i > 0 {
        assert ls'[i] == ls[i - 1] && es'[i] == es[i - 1];
      }
    }
  }

  lemma ReadsAsTail(ls: seq<string>, es: seq<ListingEntry>, raw: seq<Byte>, cfg: ListingConfig)
    requires ls != [] && ReadsAs(ls, es, raw, cfg)
    ensures DetachedLineSafe(ls[0], cfg) && DetachedLine(ls[0], raw, cfg) == es[0]
    ensures ReadsAs(ls[1..], es[1..], raw, cfg)
  {
    forall i | 0 <= i < |ls| - 1
      ensures DetachedLineSafe(ls[1..][i], cfg) && DetachedLine(ls[1..][i], raw, cfg) == es[1..][i]
    {
      assert ls[1..][i] == ls[i + 1] && es[1..][i] == es[i + 1];
    }
  }

  /** The parse reads every non-blank trimmed line, in order, and nothing else. */
  lemma {:induction false} DetachedEntriesNonBlank(lines: seq<string>, raw: seq<Byte>, cfg: ListingConfig)
    requires DetachedSafe(lines, cfg)
    ensures ReadsAs(NonBlank(lines), DetachedEntries(lines, raw, cfg), raw, cfg)
    decreases |lines|
  {
    if lines != [] {
      DetachedEntriesNonBlank(lines[1..], raw, cfg);
      var t := Trim(lines[0]);
      if t != [] {
        ReadsAsCons(t, NonBlank(lines[1..]), DetachedEntries(lines[1..], raw, cfg), raw, cfg);
      }
    }
  }

  /** One line of the loop: a blank line adds nothing, any other adds its entry. */
  lemma DetachedStep(lines: seq<string>, i: nat, raw: seq<Byte>, cfg: ListingConfig)
    requires i < |lines| && DetachedSafe(lines[i..], cfg)
    ensures DetachedLineSafe(Trim(lines[i]), cfg) && DetachedSafe(lines[i + 1..], cfg)
    ensures Trim(lines[i]) == [] ==> DetachedEntries(lines[i..], raw, cfg) == DetachedEntries(lines[i + 1..], raw, cfg)
    ensures Trim(lines[i]) != [] ==>
      DetachedEntries(lines[i..], raw, cfg) == [DetachedLine(Trim(lines[i]), raw, cfg)] + DetachedEntries(lines[i + 1..], raw, cfg)
  {
    assert lines[i..][0] == lines[i] && lines[i..][1..] == lines[i + 1..];
  }

  /** One line of `parse_detached_listing`, with the window arithmetic of the source. */
  method ReadDetachedLine(trimmed: string, raw: seq<Byte>, cfg: ListingConfig) returns (e: ListingEntry)
    requires DetachedLineSafe(trimmed, cfg)
    ensures e == DetachedLine(trimmed, raw, cfg)
  {
    var (first, rest) := SplitWs(trimmed);
    if '.' in first {
      var addrVal := ParseGroupedNumber(first, cfg.base, Some(cfg.addrGroups));
      if addrVal.Ok? {
        var offset := addrVal.value % U64;  // `addr_val as usize` on a 64-bit target
        var bytes: seq<Byte> := [];
        if offset < |raw| {
          var groupBits := if cfg.base == 16 then 4 * cfg.entryGroupWidth
            else if cfg.base == 8 then 3 * cfg.entryGroupWidth
            else 4 * cfg.entryGroupWidth;
          assert groupBits == DigitBits(cfg.base, cfg.entryGroupWidth);
          var totalBits := groupBits * cfg.entryGroups;
          var totalBytes := (totalBits + 7) / 8;
          assert totalBytes == TotalBytes(cfg.base, cfg.entryGroupWidth, cfg.entryGroups);
          var end := if |raw| < offset + totalBytes then |raw| else offset + totalBytes;
          bytes := raw[offset..end];
          assert bytes == Window(raw, offset, totalBytes);
        }
        assert bytes == Window(raw, offset, TotalBytes(cfg.base, cfg.entryGroupWidth, cfg.entryGroups));
        return ListingEntry(offset, bytes, rest.GetOr([]));
      }
    }
    return ListingEntry(0, [], trimmed);
  }

  /** `parse_detached_listing`: the loop over `lines()`, skipping blank lines. */
  method ParseDetachedListing(comments: string, raw: seq<Byte>, cfg: ListingConfig) returns (r: Result<seq<ListingEntry>>)
    requires DetachedSafe(Lines(comments), cfg)
    ensures r == ParseDetached(comments, raw, cfg)
  {
    var lines := Lines(comments);
    var out: seq<ListingEntry> := [];
    var i := 0;
    assert lines[0..] == lines;
    while i < |lines|
      invariant i <= |lines|
      invariant DetachedSafe(lines[i..], cfg)
      invariant out + DetachedEntries(lines[i..], raw, cfg) == DetachedEntries(lines, raw, cfg)
    {
      DetachedStep(lines, i, raw, cfg);
      var trimmed := Trim(lines[i]);
      if trimmed != [] {
        var entry := ReadDetachedLine(trimmed, raw, cfg);
        AppendAssoc(out, entry, DetachedEntries(lines[i + 1..], raw, cfg));
        out := out + [entry];
      }
      i := i + 1;
    }
    assert lines[i..] == [];
    assert out + [] == out;
    return Ok(out);
  }

  lemma AppendAssoc(out: seq<ListingEntry>, e: ListingEntry, rest: seq<ListingEntry>)
    ensures out + ([e] + rest) == (out + [e]) + rest
  {
  }

  // ---------------------------------------------------------------- printing

  /** `format_grouped_number` does not panic for an address: `base^w` fits in `u128`. */
  predicate AddrPrintSafe(cfg: ListingConfig) {
    (cfg.base == 8 || cfg.base == 16) && (cfg.addrGroups == 0 || Pow(cfg.base, cfg.addrGroupWidth) < U128)
  }

  /** The comment line written for an entry, without its line feed: zero-address entries are plain comments. */
  function CommentLine(e: ListingEntry, cfg: ListingConfig): string
    requires cfg.base == 8 || cfg.base == 16
  {
    if e.address != 0 then FormatGrouped(e.address, cfg, cfg.addrGroups, cfg.addrGroupWidth) + " " + e.text
    else e.text
  }

  function CommentLines(es: seq<ListingEntry>, cfg: ListingConfig): (r: seq<string>)
    requires cfg.base == 8 || cfg.base == 16
    ensures |r| == |es|
  {
    seq(|es|, i requires 0 <= i < |es| => CommentLine(es[i], cfg))
  }

  function ZeroBytes(n: nat): (r: seq<Byte>)
    ensures |r| == n && forall i :: 0 <= i < n ==> r[i] == 0
  {
    if n == 0 then [] else ZeroBytes(n - 1) + [0]
  }

  function Max(a: nat, b: nat): nat {
    if a < b then b else a
  }

  /** `raw.resize(offset, 0)` when the image is shorter than the offset, then `raw.extend_from_slice(bytes)`. */
  function Placed(raw: seq<Byte>, off: nat, bytes: seq<Byte>): seq<Byte> {
    (if |raw| < off then raw + ZeroBytes(off - |raw|) else raw) + bytes
  }

  /** The raw image after the entries, in order; zero-address entries add nothing. */
  function RawAfter(es: seq<ListingEntry>): seq<Byte>
    decreases |es|
  {
    if es == [] then []
    else
      var r := RawAfter(es[..|es| - 1]);
      var e := es[|es| - 1];
      if e.address != 0 then Placed(r, e.address, e.bytes) else r
  }

  /** `print_detached_listing(entries, cfg)`: the comment text and the raw image. */
  function PrintDetached(es: seq<ListingEntry>, cfg: ListingConfig): (string, seq<Byte>)
    requires cfg.base == 8 || cfg.base == 16
  {
    (Terminated(CommentLines(es, cfg)), RawAfter(es))
  }

  lemma CommentLinesSnoc(es: seq<ListingEntry>, i: nat, cfg: ListingConfig)
    requires (cfg.base == 8 || cfg.base == 16) && i < |es|
    ensures CommentLines(es[..i + 1], cfg) == CommentLines(es[..i], cfg) + [CommentLine(es[i], cfg)]
  {
    var a, b := CommentLines(es[..i + 1], cfg), CommentLines(es[..i], cfg) + [CommentLine(es[i], cfg)];
    forall k | 0 <= k <= i ensures a[k] == b[k] {
      assert es[..i + 1][k] == es[k];
      if k < i {
        assert es[..i][k] == es[k];
      }
    }
  }

  lemma RawAfterSnoc(es: seq<ListingEntry>, i: nat)
    requires i < |es|
    ensures RawAfter(es[..i + 1]) ==
      if es[i].address != 0 then Placed(RawAfter(es[..i]), es[i].address, es[i].bytes) else RawAfter(es[..i])
  {
    assert es[..i + 1][..i] == es[..i];
    assert es[..i + 1][i] == es[i];
  }

  /** `print_detached_listing`: per entry, the comment line, and for a non-zero address its bytes into the image. */
  method PrintDetachedListing(entries: seq<ListingEntry>, cfg: ListingConfig) returns (comments: string, raw: seq<Byte>)
    requires AddrPrintSafe(cfg)
    ensures (comments, raw) == PrintDetached(entries, cfg)
  {
    comments := [];
    raw := [];
    for i := 0 to |entries|
      invariant comments == Terminated(CommentLines(entries[..i], cfg))
      invariant raw == RawAfter(entries[..i])
    {
      var e := entries[i];
      var line;
      if e.address != 0 {
        var addr := FormatGroupedNumber(e.address, cfg, cfg.addrGroups, cfg.addrGroupWidth);
        line := addr + " " + e.text;
        var offset := e.address;
        if |raw| < offset {
          raw := raw + ZeroBytes(offset - |raw|);
        }
        raw := raw + e.bytes;
      } else {
        line := e.text;
      }
      CommentLinesSnoc(entries, i, cfg);
      TerminatedSnoc(CommentLines(entries[..i], cfg), line);
      RawAfterSnoc(entries, i);
      comments := comments + line + "\n";
    }
    assert entries[..|entries|] == entries;
  }

  // ---------------------------------------------------------------- the raw image

  /** Placing bytes keeps the image, pads it with zeros up to the offset, and appends the bytes there. */
  lemma PlacedShape(raw: seq<Byte>, off: nat, bytes: seq<Byte>)
    ensures |Placed(raw, off, bytes)| == Max(|raw|, off) + |bytes|
    ensures Placed(raw, off, bytes)[..|raw|] == raw
    ensures forall k :: |raw| <= k < off ==> Placed(raw, off, bytes)[k] == 0
    ensures Placed(raw, off, bytes)[Max(|raw|, off)..] == bytes
  {
    var p := Placed(raw, off, bytes);
    if |raw| < off {
      var z := raw + ZeroBytes(off - |raw|);
      assert p == z + bytes;
      assert p[..|raw|] == raw by {
        assert forall k :: 0 <= k < |raw| ==> p[k] == z[k] == raw[k];
      }
      forall k | |raw| <= k < off ensures p[k] == 0 {
        assert p[k] == z[k] == ZeroBytes(off - |raw|)[k - |raw|];
      }
    }
  }

  /** The image only grows: an earlier image is a prefix of a later one. */
  lemma {:induction false} RawAfterPrefix(es: seq<ListingEntry>, k: nat)
    requires k <= |es|
    ensures |RawAfter(es[..k])| <= |RawAfter(es)|
    ensures RawAfter(es[..k]) == RawAfter(es)[..|RawAfter(es[..k])|]
    decreases |es| - k
  {
    if k == |es| {
      assert es[..k] == es;
    } else {
      RawAfterPrefix(es, k + 1);
      RawAfterSnoc(es, k);
      var r, r' := RawAfter(es[..k]), RawAfter(es[..k + 1]);
      if es[k].address != 0 {
        PlacedShape(r, es[k].address, es[k].bytes);
      }
      assert r == r'[..|r|];
      PrefixTrans(r, r', RawAfter(es));
    }
  }

  lemma PrefixTrans(a: seq<Byte>, b: seq<Byte>, c: seq<Byte>)
    requires |a| <= |b| <= |c| && a == b[..|a|] && b == c[..|b|]
    ensures a == c[..|a|]
  {
    assert forall k :: 0 <= k < |a| ==> a[k] == b[k] == c[k];
  }

  /** Entries whose byte runs follow each other: every mapped entry ends before the next mapped one starts. */
  predicate Ascending(es: seq<ListingEntry>) {
    forall i, j :: 0 <= i < j < |es| && es[i].address != 0 && es[j].address != 0 ==>
      es[i].address + |es[i].bytes| <= es[j].address
  }

  /** Where the last mapped entry's bytes end, or 0 when there is none. */
  function LastEnd(es: seq<ListingEntry>): nat
    decreases |es|
  {
    if es == [] then 0
    else if es[|es| - 1].address != 0 then es[|es| - 1].address + |es[|es| - 1].bytes|
    else LastEnd(es[..|es| - 1])
  }

  /** Every prefix of ascending entries ends no later than the next mapped entry starts. */
  lemma {:induction false} LastEndBefore(es: seq<ListingEntry>, j: nat)
    requires Ascending(es) && j < |es| && es[j].address != 0
    ensures LastEnd(es[..j]) <= es[j].address
  {
    LastEndIs(es[..j]);
    if LastEnd(es[..j]) != 0 {
      var k :| 0 <= k < j && es[..j][k].address != 0 && LastEnd(es[..j]) == es[..j][k].address + |es[..j][k].bytes|;
      assert es[..j][k] == es[k];
    }
  }

  lemma {:induction false} LastEndIs(es: seq<ListingEntry>)
    ensures LastEnd(es) == 0 ||
      exists k :: 0 <= k < |es| && es[k].address != 0 && LastEnd(es) == es[k].address + |es[k].bytes|
    decreases |es|
  {
    if es != [] && es[|es| - 1].address == 0 {
      var init := es[..|es| - 1];
      LastEndIs(init);
      if LastEnd(init) != 0 {
        var k :| 0 <= k < |init| && init[k].address != 0 && LastEnd(init) == init[k].address + |init[k].bytes|;
        assert init[k] == es[k];
      }
    }
  }

  /** For ascending entries the image is exactly as long as the last mapped entry's end. */
  lemma {:induction false} RawLenAscending(es: seq<ListingEntry>)
    requires Ascending(es)
    ensures |RawAfter(es)| == LastEnd(es)
    decreases |es|
  {
    if es != [] {
      var n := |es| - 1;
      var init := es[..n];
      assert Ascending(init) by {
        assert forall i :: 0 <= i < n ==> init[i] == es[i];
      }
      RawLenAscending(init);
      RawAfterSnoc(es, n);
      assert es[..n + 1] == es;
      if es[n].address != 0 {
        LastEndBefore(es, n);
        PlacedShape(RawAfter(init), es[n].address, es[n].bytes);
      }
    }
  }

  /**
   * For ascending entries every mapped entry's bytes sit in the image at its own address:
   * the offset is where the bytes go, not after whatever came before.
   */
  lemma PlacedAtAddress(es: seq<ListingEntry>, i: nat)
    requires Ascending(es) && i < |es| && es[i].address != 0
    ensures es[i].address + |es[i].bytes| <= |RawAfter(es)|
    ensures RawAfter(es)[es[i].address..es[i].address + |es[i].bytes|] == es[i].bytes
  {
    PlacedLast(es, i);
    RawAfterPrefix(es, i + 1);
    SliceOfPrefix(RawAfter(es[..i + 1]), RawAfter(es), es[i].address);
  }

  /** The image right after a mapped ascending entry ends with its bytes, at its address. */
  lemma PlacedLast(es: seq<ListingEntry>, i: nat)
    requires Ascending(es) && i < |es| && es[i].address != 0
    ensures |RawAfter(es[..i + 1])| == es[i].address + |es[i].bytes|
    ensures RawAfter(es[..i + 1])[es[i].address..] == es[i].bytes
  {
    var init := es[..i];
    assert Ascending(init) by {
      assert forall k :: 0 <= k < i ==> init[k] == es[k];
    }
    RawLenAscending(init);
    LastEndBefore(es, i);
    RawAfterSnoc(es, i);
    PlacedShape(RawAfter(init), es[i].address, es[i].bytes);
  }

  lemma SliceOfPrefix(r: seq<Byte>, full: seq<Byte>, lo: nat)
    requires lo <= |r| <= |full| && r == full[..|r|]
    ensures full[lo..|r|] == r[lo..]
  {
    assert forall k :: lo <= k < |r| ==> full[k] == r[k];
  }

  // ---------------------------------------------------------------- reading a printed listing

  /** An address token then a text that keeps: the trimmed line splits into the token and that text. */
  lemma AddressLineSplits(a: string, text: string)
    requires a != [] && NoWs(a) && KeepsText(text)
    ensures Trim(a + " " + text) == if text == [] then a else a + " " + text
    ensures SplitWs(Trim(a + " " + text)) == (a, if text == [] then None else Some(text))
  {
    var l := a + " " + text;
    if text == [] {
      assert l == a + [' '];
      TrimAfterToken(a);
      SplitWsWhole(a);
    } else {
      assert l[0] == a[0] && l[|l| - 1] == text[|text| - 1];
      TrimKeeps(l);
      SplitWsAt(a, ' ', text);
    }
  }

  /** A token followed by a single space trims to the token. */
  lemma TrimAfterToken(a: string)
    requires a != [] && NoWs(a)
    ensures Trim(a + [' ']) == a
  {
    var l := a + [' '];
    assert TrimStart(l) == l;
    assert l[..|l| - 1] == a;
    assert TrimEnd(l) == TrimEnd(a);
  }

  /** Layouts whose addresses read back: both bases, at least two address groups (so the token has a `.`), shifts below 128 bits. */
  predicate DetachedConfig(cfg: ListingConfig) {
    && (cfg.base == 8 || cfg.base == 16)
    && cfg.addrGroups >= 2 && cfg.addrGroupWidth >= 1
    && TotalBits(cfg.base, cfg.addrGroupWidth, cfg.addrGroups) <= 128
    && DigitBits(cfg.base, cfg.addrGroupWidth) < 128
  }

  /**
   * Entries that survive printing and reading: a mapped entry has an address its groups
   * hold, a full window of bytes and a text that keeps; a plain comment has no bytes and a
   * non-empty trimmed one-line text whose first token has no `.`. The condition is sufficient,
   * not necessary: a comment whose dotted first token fails to parse also reads back.
   */
  predicate RoundTrips(e: ListingEntry, cfg: ListingConfig)
    requires DetachedConfig(cfg)
  {
    if e.address != 0 then
      && e.address < Pow(2, TotalBits(cfg.base, cfg.addrGroupWidth, cfg.addrGroups))
      && |e.bytes| == TotalBytes(cfg.base, cfg.entryGroupWidth, cfg.entryGroups)
      && KeepsText(e.text)
    else
      e.bytes == [] && e.text != [] && Trim(e.text) == e.text && '\n' !in e.text && !Dotted(e.text)
  }

  /** A mapped entry's line reads back as that entry when its bytes sit in the image at its address. */
  lemma MappedLineRoundTrip(e: ListingEntry, raw: seq<Byte>, cfg: ListingConfig)
    requires DetachedConfig(cfg) && e.address != 0 && RoundTrips(e, cfg)
    requires e.address + |e.bytes| <= |raw| && raw[e.address..e.address + |e.bytes|] == e.bytes
    ensures var t := Trim(CommentLine(e, cfg));
      && t != [] && '\n' !in CommentLine(e, cfg)
      && DetachedLineSafe(t, cfg) && DetachedLine(t, raw, cfg) == e
  {
    var a := FormatGrouped(e.address, cfg, cfg.addrGroups, cfg.addrGroupWidth);
    var rest := if e.text == [] then None else Some(e.text);
    AddressLineRead(e, cfg);
    WindowFull(raw, e.address, |e.bytes|);
    MappedLine(Trim(CommentLine(e, cfg)), raw, cfg, a, rest, e.address);
  }

  /** A mapped entry's line: a dotted address token that parses back to the address, then the text. */
  lemma AddressLineRead(e: ListingEntry, cfg: ListingConfig)
    requires DetachedConfig(cfg) && e.address != 0 && RoundTrips(e, cfg)
    ensures var a := FormatGrouped(e.address, cfg, cfg.addrGroups, cfg.addrGroupWidth);
      && Trim(CommentLine(e, cfg)) != [] && '\n' !in CommentLine(e, cfg)
      && SplitWs(Trim(CommentLine(e, cfg))) == (a, if e.text == [] then None else Some(e.text))
      && '.' in a && ShiftsFit(a, cfg.base, Some(cfg.addrGroups))
      && ParseGrouped(a, cfg.base, Some(cfg.addrGroups)) == Ok(e.address)
  {
    var a := FormatGrouped(e.address, cfg, cfg.addrGroups, cfg.addrGroupWidth);
    FormatGroupedText(e.address, cfg, cfg.addrGroups, cfg.addrGroupWidth);
    DotDigitsText(a, cfg.base);
    AddressLineSplits(a, e.text);
    assert CommentLine(e, cfg) == a + " " + e.text;
    FormatParseRoundTrip(e.address, cfg, cfg.addrGroups, cfg.addrGroupWidth);
    ModBelow(e.address, Pow(2, TotalBits(cfg.base, cfg.addrGroupWidth, cfg.addrGroups)));
  }

  /** A line whose dotted first token parses maps the rest of the line to the window at that address. */
  lemma MappedLine(t: string, raw: seq<Byte>, cfg: ListingConfig, a: string, rest: Option<string>, v: nat)
    requires SplitWs(t) == (a, rest) && '.' in a && v < U64
    requires 2 <= cfg.base <= 16 && ShiftsFit(a, cfg.base, Some(cfg.addrGroups))
    requires ParseGrouped(a, cfg.base, Some(cfg.addrGroups)) == Ok(v)
    ensures DetachedLineSafe(t, cfg)
    ensures DetachedLine(t, raw, cfg) ==
      ListingEntry(v, Window(raw, v, TotalBytes(cfg.base, cfg.entryGroupWidth, cfg.entryGroups)), rest.GetOr([]))
  {
    ModBelow(v, U64);
  }

  /**
   * A dotted line whose address reads as 0 maps bytes from a non-empty image, yet address 0
   * marks a plain comment when printing: the line printed for that entry is its text alone
   * and its bytes add nothing to the image.
   */
  lemma ZeroMappingDropped(t: string, raw: seq<Byte>, cfg: ListingConfig, a: string, rest: Option<string>, es: seq<ListingEntry>)
    requires SplitWs(t) == (a, rest) && '.' in a && raw != []
    requires (cfg.base == 8 || cfg.base == 16) && ShiftsFit(a, cfg.base, Some(cfg.addrGroups))
    requires ParseGrouped(a, cfg.base, Some(cfg.addrGroups)) == Ok(0)
    requires TotalBytes(cfg.base, cfg.entryGroupWidth, cfg.entryGroups) >= 1
    ensures DetachedLineSafe(t, cfg)
    ensures var e := DetachedLine(t, raw, cfg);
      && e.address == 0 && e.bytes != []
      && CommentLine(e, cfg) == rest.GetOr([])
      && RawAfter(es + [e]) == RawAfter(es)
  {
    MappedLine(t, raw, cfg, a, rest, 0);
    var e := DetachedLine(t, raw, cfg);
    assert (es + [e])[..|es|] == es;
  }

  /** A plain comment's line reads back as that comment. */
  lemma CommentLineRoundTrip(e: ListingEntry, raw: seq<Byte>, cfg: ListingConfig)
    requires DetachedConfig(cfg) && e.address == 0 && RoundTrips(e, cfg)
    ensures var t := Trim(CommentLine(e, cfg));
      && t != [] && '\n' !in CommentLine(e, cfg)
      && DetachedLineSafe(t, cfg) && DetachedLine(t, raw, cfg) == e
  {
  }

  /** Lines that each read back, followed by the empty piece after the last line feed. */
  lemma {:induction false} DetachedAllRead(ls: seq<string>, es: seq<ListingEntry>, raw: seq<Byte>, cfg: ListingConfig)
    requires forall i :: 0 <= i < |ls| ==> Trim(ls[i]) != []
    requires ReadsAs(TrimAll(ls), es, raw, cfg)
    ensures DetachedSafe(ls + [[]], cfg) && DetachedEntries(ls + [[]], raw, cfg) == es
    decreases |ls|
  {
    if ls == [] {
      var empty: seq<string> := [];
      assert ls + [[]] == [[]] && [[]][1..] == empty;
    } else {
      var ls', es' := ls[1..], es[1..];
      HeadTailSnoc(ls, []);
      assert TrimAll(ls)[1..] == TrimAll(ls');
      ReadsAsTail(TrimAll(ls), es, raw, cfg);
      forall i | 0 <= i < |ls'| ensures Trim(ls'[i]) != [] {
        assert ls'[i] == ls[i + 1];
      }
      DetachedAllRead(ls', es', raw, cfg);
      DetachedCons(ls[0], ls' + [[]], raw, cfg);
      HeadTail(es);
    }
  }

  function TrimAll(ls: seq<string>): (r: seq<string>)
    ensures |r| == |ls| && forall i :: 0 <= i < |ls| ==> r[i] == Trim(ls[i])
  {
    seq(|ls|, i requires 0 <= i < |ls| => Trim(ls[i]))
  }

  lemma DetachedCons(l: string, rest: seq<string>, raw: seq<Byte>, cfg: ListingConfig)
    requires Trim(l) != [] && DetachedLineSafe(Trim(l), cfg) && DetachedSafe(rest, cfg)
    ensures DetachedSafe([l] + rest, cfg)
    ensures DetachedEntries([l] + rest, raw, cfg) == [DetachedLine(Trim(l), raw, cfg)] + DetachedEntries(rest, raw, cfg)
  {
    assert ([l] + rest)[0] == l && ([l] + rest)[1..] == rest;
  }

  /**
   * Printing then reading gives the entries back, for ascending entries that each round
   * trip: the comment text maps each address to its bytes in the image and keeps the
   * plain comments.
   */
  lemma DetachedRoundTrip(es: seq<ListingEntry>, cfg: ListingConfig)
    requires DetachedConfig(cfg) && Ascending(es)
    requires forall i :: 0 <= i < |es| ==> RoundTrips(es[i], cfg)
    ensures DetachedSafe(Lines(PrintDetached(es, cfg).0), cfg)
    ensures ParseDetached(PrintDetached(es, cfg).0, PrintDetached(es, cfg).1, cfg) == Ok(es)
  {
    var ls := CommentLines(es, cfg);
    var raw := RawAfter(es);
    forall i | 0 <= i < |ls|
      ensures Trim(ls[i]) != [] && '\n' !in ls[i]
      ensures DetachedLineSafe(TrimAll(ls)[i], cfg) && DetachedLine(TrimAll(ls)[i], raw, cfg) == es[i]
    {
      if es[i].address != 0 {
        PlacedAtAddress(es, i);
        MappedLineRoundTrip(es[i], raw, cfg);
      } else {
        CommentLineRoundTrip(es[i], raw, cfg);
      }
    }
    LinesOfTerminated(ls);
    DetachedAllRead(ls, es, raw, cfg);
  }

  /**
   * With a single address group the printed address has no `.`, so a mapped entry's line
   * reads back as a plain comment holding the whole line, at address 0 and without bytes.
   */
  lemma SingleGroupReadsAsComment(e: ListingEntry, raw: seq<Byte>, cfg: ListingConfig)
    requires (cfg.base == 8 || cfg.base == 16) && cfg.addrGroups == 1 && cfg.addrGroupWidth >= 1
    requires e.address != 0 && KeepsText(e.text)
    ensures var t := Trim(CommentLine(e, cfg));
      DetachedLineSafe(t, cfg) && DetachedLine(t, raw, cfg) == ListingEntry(0, [], t)
  {
    var a := FormatGrouped(e.address, cfg, cfg.addrGroups, cfg.addrGroupWidth);
    FormatGroupedText(e.address, cfg, cfg.addrGroups, cfg.addrGroupWidth);
    DotDigitsText(a, cfg.base);
    AddressLineSplits(a, e.text);
  }

  /** Printing lines whose texts have no line feed: reading the comment text back gives those lines. */
  lemma PrintedCommentLines(es: seq<ListingEntry>, cfg: ListingConfig)
    requires (cfg.base == 8 || cfg.base == 16) && cfg.addrGroups >= 1 && cfg.addrGroupWidth >= 1
    requires forall i :: 0 <= i < |es| ==> '\n' !in es[i].text
    ensures Lines(PrintDetached(es, cfg).0) == CommentLines(es, cfg) + [[]]
  {
    var ls := CommentLines(es, cfg);
    forall i | 0 <= i < |ls| ensures '\n' !in ls[i] {
      if es[i].address != 0 {
        var a := FormatGrouped(es[i].address, cfg, cfg.addrGroups, cfg.addrGroupWidth);
        FormatGroupedText(es[i].address, cfg, cfg.addrGroups, cfg.addrGroupWidth);
        DotDigitsText(a, cfg.base);
      }
    }
    LinesOfTerminated(ls);
  }
}
