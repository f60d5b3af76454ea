/**
 The per-entry record of the listing and its two renderings: the short
 form (a coloured name) and the long form (permissions, link count,
 owner, group, size, time and name in columns).
 */
module Files {
  import opened Basics
  import opened Text
  import opened Ansi

  /**
   What kind of entry a `FileInfo` describes. A symbolic link carries
   its target; `None` stands for a target path that is not valid UTF-8,
   where Rust's `Path::to_str` gives nothing.
   */
  datatype FileType = File | Dir | Symlink(target: Option<string>)

  /** One directory entry, as extracted before rendering. */
  datatype FileInfo = FileInfo(
    permissions: string,
    linkCount: u64,
    owner: string,
    group: string,
    size: u64,
    modified: string,
    name: string,
    fileType: FileType
  )

  /** The colour `short()` puts before a name. */
  function ShortColor(t: FileType): string {
    match t
    case Dir => ColorBlue
    case Symlink(_) => ColorCyan
    case File => ""
  }

  /** `FileInfo::short`: the name between its colour code and a reset, which is emitted even for plain files. */
  function Short(e: FileInfo): (s: string)
    ensures StartsWith(s, ShortColor(e.fileType))
    ensures |s| == |ShortColor(e.fileType)| + |e.name| + |AnsiReset|
    ensures EndsWith(s, AnsiReset)
    ensures s[|ShortColor(e.fileType)|..|s| - |AnsiReset|] == e.name
  {
    ShortColor(e.fileType) + e.name + AnsiReset
  }

  /** The colour `long()` puts before the name column: only directories get one. */
  function LongColor(t: FileType): string {
    if t == Dir then ColorBlue else ""
  }

  /**
   The name column of `long()`: for a symbolic link, the cyan name, a
   reset, an arrow and the target; nothing at all when the target is not
   valid UTF-8.
   */
  function LongName(e: FileInfo): string {
    match e.fileType
    case Symlink(Some(target)) => ColorCyan + (e.name + (AnsiReset + (" -> " + target)))
    case Symlink(None) => ""
    case _ => e.name
  }

  /** The name column closed by its reset, which `long()` emits for every kind of entry. */
  function NameColumn(e: FileInfo): (s: string)
    ensures EndsWith(s, AnsiReset)
  {
    EndsWithAppend(LongColor(e.fileType) + LongName(e), AnsiReset, AnsiReset);
    LongColor(e.fileType) + LongName(e) + AnsiReset
  }

  /**
   The colour of the name column by file type: blue for a directory; for
   a readable link, the cyan name and a reset before the arrow; no colour
   for a plain file, and nothing but the reset for an unreadable link.
   */
  lemma NameColumnColors(e: FileInfo)
    ensures e.fileType == Dir ==> NameColumn(e) == ColorBlue + e.name + AnsiReset
    ensures e.fileType == File ==> NameColumn(e) == e.name + AnsiReset
    ensures e.fileType == Symlink(None) ==> NameColumn(e) == AnsiReset
    ensures e.fileType.Symlink? && e.fileType.target.Some?
      ==> NameColumn(e) == ColorCyan + e.name + AnsiReset + " -> " + e.fileType.target.value + AnsiReset
    ensures e.fileType.Symlink? && e.fileType.target.Some?
      ==> StartsWith(NameColumn(e), ColorCyan + e.name + AnsiReset)
  {
    match e.fileType
    case Symlink(Some(target)) =>
      LinkNameColumn(e, target);
    case Symlink(None) =>
      assert NameColumn(e) == "" + "" + AnsiReset;
    case File =>
      assert NameColumn(e) == "" + e.name + AnsiReset;
    case Dir =>
  }

  lemma LinkNameColumn(e: FileInfo, target: string)
    requires e.fileType == Symlink(Some(target))
    ensures NameColumn(e) == ColorCyan + e.name + AnsiReset + " -> " + target + AnsiReset
    ensures StartsWith(NameColumn(e), ColorCyan + e.name + AnsiReset)
  {
    var head := ColorCyan + e.name + AnsiReset;
    assert NameColumn(e) == ColorCyan + (e.name + (AnsiReset + (" -> " + target))) + AnsiReset by {
      assert LongColor(e.fileType) == "";
      assert "" + LongName(e) == LongName(e);
    }
    Regroup(ColorCyan, e.name, AnsiReset, " -> ", target);
    assert StartsWith(head, head);
    StartsWithAppend(head, " -> " + target + AnsiReset, head);
  }

  /** Regrouping the link's name column into its coloured name and the rest. */
  lemma Regroup(c: string, n: string, r: string, a: string, t: string)
    ensures c + (n + (r + (a + t))) + r == (c + n + r) + (a + t + r)
    ensures (c + n + r) + (a + t + r) == c + n + r + a + t + r
  {
  }

  /** The link count, left-aligned in 2, and its separating space. */
  function LinkCountColumn(e: FileInfo): string {
    PadRight(NatToString(e.linkCount), 2) + " "
  }

  /** Owner and group right-aligned in 5 and size right-aligned in 4, each followed by a space. */
  function OwnerGroupSizeColumns(e: FileInfo): string {
    PadLeft(e.owner, 5) + " " + PadLeft(e.group, 5) + " " + PadLeft(NatToString(e.size), 4) + " "
  }

  /** The numeric and name columns between the permissions and the time. */
  function NumericColumns(e: FileInfo): string {
    LinkCountColumn(e) + OwnerGroupSizeColumns(e)
  }

  /** Every column of `long()` before the name: permissions, the numeric columns and the modification time. */
  function LongColumns(e: FileInfo): string {
    e.permissions + " " + NumericColumns(e) + e.modified + " "
  }

  /** `FileInfo::long`: the columns, then the coloured name column and a reset. */
  function Long(e: FileInfo): (s: string)
    ensures StartsWith(s, e.permissions + " ")
    ensures EndsWith(s, AnsiReset)
  {
    LongColumnsStart(e);
    StartsWithAppend(LongColumns(e), NameColumn(e), e.permissions + " ");
    EndsWithAppend(LongColumns(e), NameColumn(e), AnsiReset);
    LongColumns(e) + NameColumn(e)
  }

  /**
   The column layout of a long line: permissions, the link count
   left-aligned in 2, owner and group right-aligned in 5, the size
   right-aligned in 4, the modification time, then the name column, all
   separated by single spaces.
   */
  lemma LongLayout(e: FileInfo)
    ensures Long(e) == e.permissions + " "
      + (PadRight(NatToString(e.linkCount), 2) + " "
         + (PadLeft(e.owner, 5) + " " + PadLeft(e.group, 5) + " " + PadLeft(NatToString(e.size), 4) + " "))
      + e.modified + " " + NameColumn(e)
  {
  }

  lemma LongColumnsStart(e: FileInfo)
    ensures StartsWith(LongColumns(e), e.permissions + " ")
  {
    var p := e.permissions + " ";
    AppendAssoc(p, NumericColumns(e), e.modified);
    AppendAssoc(p, NumericColumns(e) + e.modified, " ");
    assert LongColumns(e) == p + (NumericColumns(e) + e.modified + " ");
  }

  /**
   A link whose target is not valid UTF-8 loses only its name column:
   the line is the one a plain file with an empty name would get, and it
   still ends with the modification time, the separating space and the
   reset.
   */
  lemma LongUnreadableTarget(e: FileInfo)
    requires e.fileType == Symlink(None)
    ensures Long(e) == Long(e.(fileType := File, name := ""))
    ensures EndsWith(Long(e), e.modified + " " + AnsiReset)
  {
    var plain := e.(fileType := File, name := "");
    assert NumericColumns(e) == NumericColumns(plain);
    assert LongColumns(e) == LongColumns(plain);
    assert NameColumn(e) == AnsiReset by {
      assert LongColor(e.fileType) + LongName(e) == "";
    }
    assert NameColumn(plain) == AnsiReset by {
      assert LongColor(plain.fileType) + LongName(plain) == "";
    }
    var front := e.permissions + " " + NumericColumns(e);
    var back := e.modified + " " + AnsiReset;
    AppendAssoc(front, e.modified, " ");
    AppendAssoc(front, e.modified + " ", AnsiReset);
    assert Long(e) == front + back;
    assert EndsWith(back, back);
    EndsWithAppend(front, back, back);
  }

  /**
   The link count is left-aligned in its 2-wide column: a one-digit
   count is followed by the padding space and then the column separator.
   */
  lemma LongLinkCountLeftAligned(e: FileInfo)
    requires e.linkCount < 10
    ensures Long(e)[|e.permissions| + 1..|e.permissions| + 4] == [Digit(e.linkCount), ' ', ' ']
  {
    var p := e.permissions + " ";
    var link := LinkCountColumn(e);
    assert link == [Digit(e.linkCount), ' ', ' '] by {
      assert NatToString(e.linkCount) == [Digit(e.linkCount)];
    }
    var rest := OwnerGroupSizeColumns(e) + e.modified + " " + NameColumn(e);
    LongSplitAtLinkCount(e);
    SliceOfMiddle(p, link, rest, 3);
    assert link[..3] == link;
  }

  lemma LongSplitAtLinkCount(e: FileInfo)
    ensures Long(e) == e.permissions + " " + LinkCountColumn(e) + (OwnerGroupSizeColumns(e) + e.modified + " " + NameColumn(e))
  {
    var p := e.permissions + " ";
    var link := LinkCountColumn(e);
    var others := OwnerGroupSizeColumns(e);
    var m := e.modified;
    var nc := NameColumn(e);
    AppendAssoc(p, link, others);
    assert LongColumns(e) == p + link + others + m + " ";
    AppendAssoc(p + link, others, m);
    AppendAssoc(p + link, others + m, " ");
    AppendAssoc(p + link, others + m + " ", nc);
  }

  lemma PlainPad(s: string, w: nat)
    requires Plain(s)
    ensures Plain(PadLeft(s, w)) && Plain(PadRight(s, w))
  {
    assert Plain(Spaces(Max(|s|, w) - |s|)) by {
      var sp := Spaces(Max(|s|, w) - |s|);
      assert forall i :: 0 <= i < |sp| ==> sp[i] != Esc;
    }
  }

  lemma PlainNumber(n: nat)
    ensures Plain(NatToString(n))
  {
    var s := NatToString(n);
    assert forall i :: 0 <= i < |s| ==> s[i] != Esc;
  }

  /** Every field a long line shows as text, free of escape sequences. */
  predicate PlainFields(e: FileInfo) {
    && Plain(e.permissions)
    && Plain(e.owner)
    && Plain(e.group)
    && Plain(e.modified)
    && Plain(e.name)
    && (e.fileType.Symlink? && e.fileType.target.Some? ==> Plain(e.fileType.target.value))
  }

  lemma PlainNumericColumns(e: FileInfo)
    requires Plain(e.owner) && Plain(e.group)
    ensures Plain(NumericColumns(e))
  {
    PlainNumber(e.linkCount);
    PlainNumber(e.size);
    PlainPad(NatToString(e.linkCount), 2);
    PlainPad(e.owner, 5);
    PlainPad(e.group, 5);
    PlainPad(NatToString(e.size), 4);
  }

  lemma PlainColumns(e: FileInfo)
    requires PlainFields(e)
    ensures Plain(LongColumns(e))
  {
    PlainNumericColumns(e);
  }

  /** The name column as the terminal shows it, colour codes removed. */
  function VisibleName(e: FileInfo): string {
    match e.fileType
    case Symlink(Some(target)) => e.name + " -> " + target
    case Symlink(None) => ""
    case _ => e.name
  }

  /** A name between a colour code (or none) and a reset, then plain text, shows as the name and that text. */
  lemma VisibleColoredName(color: string, name: string, tail: string)
    requires color == "" || color == ColorBlue || color == ColorCyan
    requires Plain(name) && Plain(tail)
    ensures Visible(color + name + AnsiReset + tail) == name + tail
  {
    var rest := name + (AnsiReset + tail);
    VisiblePlain(tail);
    VisibleDropsColor(AnsiReset, tail);
    VisibleAppendPlain(name, AnsiReset + tail);
    Regroup4(color, name, AnsiReset, tail);
    if color == "" {
      assert color + rest == rest;
    } else {
      VisibleDropsColor(color, rest);
    }
  }

  /** `a + b + c + d` read from the right. */
  lemma Regroup4(a: string, b: string, c: string, d: string)
    ensures a + b + c + d == a + (b + (c + d))
  {
  }

  /** The link's name column and a tail, regrouped around the reset that closes the link's name. */
  lemma RegroupLink(c: string, n: string, r: string, a: string, t: string)
    ensures c + (n + (r + a)) + r + t == c + (n + (r + (a + r + t)))
  {
  }

  /** A readable link's name column, then plain text, shows as `name -> target` and that text. */
  lemma VisibleLinkName(name: string, target: string, tail: string)
    requires Plain(name) && Plain(target) && Plain(tail)
    ensures Visible(ColorCyan + (name + (AnsiReset + (" -> " + target))) + AnsiReset + tail) == name + (" -> " + target) + tail
  {
    var arrow := " -> " + target;
    assert Plain(arrow);
    var s1 := arrow + AnsiReset + tail;
    VisibleColoredName("", arrow, tail);
    Regroup4("", arrow, AnsiReset, tail);
    Regroup4(arrow, AnsiReset, tail, "");
    assert "" + (arrow + (AnsiReset + tail)) == s1 by {
      AppendAssoc(arrow, AnsiReset, tail);
    }
    var s2 := AnsiReset + s1;
    VisibleDropsColor(AnsiReset, s1);
    var s3 := name + s2;
    VisibleAppendPlain(name, s2);
    VisibleDropsColor(ColorCyan, s3);
    RegroupLink(ColorCyan, name, AnsiReset, arrow, tail);
    AppendAssoc(name, arrow, tail);
  }

  /** The name column, then plain text, shows as the visible name and that text. */
  lemma VisibleNameColumn(e: FileInfo, tail: string)
    requires PlainFields(e) && Plain(tail)
    ensures Visible(NameColumn(e) + tail) == VisibleName(e) + tail
  {
    match e.fileType
    case Symlink(Some(target)) =>
      var n := ColorCyan + (e.name + (AnsiReset + (" -> " + target)));
      assert LongColor(e.fileType) == "" && LongName(e) == n;
      assert NameColumn(e) == n + AnsiReset by {
        assert "" + n == n;
      }
      VisibleLinkName(e.name, target, tail);
      AppendAssoc(e.name, " -> ", target);
    case Symlink(None) =>
      VisibleColoredName("", "", tail);
      assert NameColumn(e) == "" + "" + AnsiReset;
    case File =>
      VisibleColoredName("", e.name, tail);
    case Dir =>
      VisibleColoredName(ColorBlue, e.name, tail);
  }

  /**
   What a terminal shows of a long line: the columns, then the name,
   with ` -> target` for a readable link and nothing for an unreadable one.
   */
  lemma LongVisibleText(e: FileInfo)
    requires PlainFields(e)
    ensures Visible(Long(e)) == LongColumns(e) + VisibleName(e)
  {
    PlainColumns(e);
    VisibleNameColumn(e, []);
    assert NameColumn(e) + [] == NameColumn(e);
    assert VisibleName(e) + [] == VisibleName(e);
    VisibleAppendPlain(LongColumns(e), NameColumn(e));
  }

  /** What a terminal shows of a short entry is just its name. */
  lemma ShortVisibleText(e: FileInfo)
    requires Plain(e.name)
    ensures Visible(Short(e)) == e.name
    ensures !e.fileType.Symlink? ==> Visible(Short(e)) == VisibleName(e)
  {
    VisibleColoredName(ShortColor(e.fileType), e.name, []);
    assert Short(e) + [] == Short(e) && e.name + [] == e.name;
  }
}
