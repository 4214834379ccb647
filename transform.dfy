/**
 * The card-to-entry transformation: a Trello card becomes one Day One entry
 * whose text is a markdown body (title, trimmed description, one numbered
 * placeholder per downloaded attachment, a link list for the rest), whose
 * tags are the list name and the label names, whose dates come from the
 * card's due date and last activity, and which carries the local paths of
 * the downloaded attachments in the order of their placeholders.
 *
 * Optional string fields of a card are `""` when absent or empty (the code
 * treats both alike); an attachment's `url` is an `Option` because a link
 * line reads it with `attachment["url"]`, which fails when it is absent.
 */
module Transform {
  import opened Strings
  import opened Values
  import opened Placeholders
  import opened DayOne

  datatype Attachment = Attachment(name: string, url: Option<string>, localPath: string)

  datatype Label = Label(name: string)

  datatype Card = Card(name: string, desc: string, listName: string, due: string, dateLastActivity: string,
                       labels: seq<Label>, attachments: seq<Attachment>)

  // ---------------------------------------------------------------------------
  // Filtering a list, as a Python list comprehension with an `if` does
  // ---------------------------------------------------------------------------

  /** The elements of `s` that satisfy `p`, in order. */
  function Filter<T>(s: seq<T>, p: T -> bool): (r: seq<T>)
    ensures |r| <= |s|
  {
    if s == [] then [] else Filter(s[..|s| - 1], p) + (if p(s[|s| - 1]) then [s[|s| - 1]] else [])
  }

  /** An element is kept exactly when it is in the list and satisfies the condition. */
  lemma {:induction false} FilterMembers<T>(s: seq<T>, p: T -> bool)
    ensures forall x :: x in Filter(s, p) <==> x in s && p(x)
  {
    if s != [] {
      FilterMembers(s[..|s| - 1], p);
      assert s == s[..|s| - 1] + [s[|s| - 1]];
    }
  }

  /** Filtering keeps the order: the filter of two lists one after the other is the two filters one after the other. */
  lemma {:induction false} FilterAppend<T>(a: seq<T>, b: seq<T>, p: T -> bool)
    ensures Filter(a + b, p) == Filter(a, p) + Filter(b, p)
    decreases |b|
  {
    if b == [] {
      assert a + b == a;
    } else {
      var b' := b[..|b| - 1];
      FilterAppend(a, b', p);
      assert (a + b)[..|a + b| - 1] == a + b';
    }
  }

  /** A list whose elements all satisfy the condition is kept whole. */
  lemma {:induction false} FilterAll<T>(s: seq<T>, p: T -> bool)
    requires forall i :: 0 <= i < |s| ==> p(s[i])
    ensures Filter(s, p) == s
  {
    if s != [] {
      FilterAll(s[..|s| - 1], p);
    }
  }

  /** A condition and its negation split a list: every element lands on exactly one side. */
  lemma {:induction false} FilterSplit<T>(s: seq<T>, p: T -> bool, q: T -> bool)
    requires forall i :: 0 <= i < |s| ==> q(s[i]) == !p(s[i])
    ensures |Filter(s, p)| + |Filter(s, q)| == |s|
  {
    if s != [] {
      FilterSplit(s[..|s| - 1], p, q);
    }
  }

  // ---------------------------------------------------------------------------
  // parse_trello_date
  // ---------------------------------------------------------------------------

  /** `date_string.replace("Z", "+00:00")`: the UTC suffix `fromisoformat` understands. */
  function ZuluToOffset(date: string): string {
    ReplaceAll(date, "Z", "+00:00")
  }

  /** The text handed to the ISO parser has no `Z` left, and a date without `Z` is handed over as it is. */
  lemma ZuluToOffsetFacts(date: string)
    ensures !Contains(ZuluToOffset(date), "Z")
    ensures !Contains(date, "Z") ==> ZuluToOffset(date) == date
  {
    ReplaceAllRemoves(date, "Z", "+00:00");
    if !Contains(date, "Z") {
      ReplaceAllWithoutMatch(date, "Z", "+00:00");
    }
  }

  /**
   * A Trello date in ISO 8601 form. `now` is the current time as
   * `isoformat()` renders it; `fromIso` is `fromisoformat(..).isoformat()`,
   * `None` where the parser raises `ValueError`.
   */
  function ParseTrelloDate(date: string, now: string, fromIso: string -> Option<string>): (r: string)
    ensures date == "" ==> r == now
    ensures r == now || (date != "" && fromIso(ZuluToOffset(date)) == Some(r))
    ensures date != "" && fromIso(ZuluToOffset(date)).None? ==> r == now
    ensures date != "" && fromIso(ZuluToOffset(date)).Some? ==> r == fromIso(ZuluToOffset(date)).value
  {
    if date == "" then now
    else match fromIso(ZuluToOffset(date))
      case Some(iso) => iso
      case None => now
  }

  // ---------------------------------------------------------------------------
  // build_entry_body
  // ---------------------------------------------------------------------------

  const OtherHeading: string := "## Other Attachments"

  /** `a.get("local_path")` is truthy. */
  predicate IsDownloaded(a: Attachment) {
    a.localPath != ""
  }

  predicate IsLinked(a: Attachment) {
    a.localPath == ""
  }

  function Downloaded(atts: seq<Attachment>): seq<Attachment> {
    Filter(atts, IsDownloaded)
  }

  function NotDownloaded(atts: seq<Attachment>): seq<Attachment> {
    Filter(atts, IsLinked)
  }

  /** Every attachment is either embedded or linked. */
  lemma DownloadedSplit(atts: seq<Attachment>)
    ensures |Downloaded(atts)| + |NotDownloaded(atts)| == |atts|
    ensures forall a :: a in Downloaded(atts) <==> a in atts && a.localPath != ""
    ensures forall a :: a in NotDownloaded(atts) <==> a in atts && a.localPath == ""
  {
    FilterSplit(atts, IsDownloaded, IsLinked);
    FilterMembers(atts, IsDownloaded);
    FilterMembers(atts, IsLinked);
  }

  /** The title line, a blank line, and the trimmed description with a blank line when there is one. */
  function HeadLines(card: Card): seq<string> {
    var description := Strip(card.desc);
    ["# " + card.name, ""] + (if description != "" then [description, ""] else [])
  }

  /** `f"![]({placeholder})"` for the i-th downloaded attachment. */
  function ImageLine(i: nat): string {
    "![](" + Placeholder(i) + ")"
  }

  /** The image lines of the first `k` downloaded attachments, each followed by a blank line. */
  function ImageLines(k: nat): (r: seq<string>)
    ensures |r| == 2 * k
  {
    if k == 0 then [] else ImageLines(k - 1) + [ImageLine(k - 1), ""]
  }

  /** `attachment.get("name") or attachment.get("url", "link")`. */
  function DisplayName(a: Attachment): string {
    if a.name != "" then a.name
    else match a.url
      case Some(u) => u
      case None => "link"
  }

  /** `f"- [{display_name}]({url})"`; `None` where `attachment["url"]` raises `KeyError`. */
  function LinkLine(a: Attachment): Option<string> {
    match a.url
    case Some(u) => Some("- [" + DisplayName(a) + "](" + u + ")")
    case None => None
  }

  /** The link lines of the attachments that were not downloaded, in order; `None` when one of them fails. */
  function LinkLines(nd: seq<Attachment>): Option<seq<string>> {
    if nd == [] then Some([])
    else
      match (LinkLines(nd[..|nd| - 1]), LinkLine(nd[|nd| - 1]))
      case (Some(init), Some(last)) => Some(init + [last])
      case _ => None
  }

  /** The "Other Attachments" section: empty when every attachment was downloaded. */
  function OtherAttachmentLines(nd: seq<Attachment>): Option<seq<string>> {
    if nd == [] then Some([])
    else
      match LinkLines(nd)
      case Some(links) => Some([OtherHeading, ""] + links + [""])
      case None => None
  }

  /** The lines of the body, or `None` where building it raises `KeyError`. */
  function BodyLines(card: Card, includeAttachments: bool): Option<seq<string>> {
    if includeAttachments && card.attachments != [] then
      match OtherAttachmentLines(NotDownloaded(card.attachments))
      case Some(other) => Some(HeadLines(card) + ImageLines(|Downloaded(card.attachments)|) + other)
      case None => None
    else Some(HeadLines(card))
  }

  /** `"\n".join(lines)`. */
  function EntryBody(card: Card, includeAttachments: bool): Option<string> {
    match BodyLines(card, includeAttachments)
    case Some(lines) => Some(Join(lines, "\n"))
    case None => None
  }

  /** Building the body line by line, as `build_entry_body` does. */
  method BuildEntryBody(card: Card, includeAttachments: bool) returns (body: Option<string>)
    ensures body == EntryBody(card, includeAttachments)
  {
    var lines := ["# " + card.name, ""];
    var description := Strip(card.desc);
    if description != "" {
      lines := lines + [description, ""];
    }
    assert lines == HeadLines(card);
    var attachments := card.attachments;
    if includeAttachments && attachments != [] {
      var downloaded := Downloaded(attachments);
      var notDownloaded := NotDownloaded(attachments);
      lines := AppendImageLines(lines, |downloaded|);
      if notDownloaded != [] {
        lines := lines + [OtherHeading, ""];
        var withLinks := AppendLinkLines(lines, notDownloaded);
        if withLinks.None? {
          assert OtherAttachmentLines(notDownloaded).None?;
          return None;
        }
        lines := withLinks.value + [""];
        assert lines == HeadLines(card) + ImageLines(|downloaded|)
                        + ([OtherHeading, ""] + LinkLines(notDownloaded).value + [""]);
      } else {
        assert lines == HeadLines(card) + ImageLines(|downloaded|) + [];
      }
      assert BodyLines(card, includeAttachments) == Some(lines);
    }
    body := Some(Join(lines, "\n"));
  }

  /** The placeholder loop of `build_entry_body`: one image line and a blank line per downloaded attachment. */
  method AppendImageLines(lines: seq<string>, count: nat) returns (lines': seq<string>)
    ensures lines' == lines + ImageLines(count)
  {
    lines' := lines;
    var index := 0;
    while index < count
      invariant index <= count
      invariant lines' == lines + ImageLines(index)
    {
      lines' := lines' + [ImageLine(index), ""];
      index := index + 1;
    }
  }

  /** The link loop of `build_entry_body`: one link line per attachment; `None` at the first one without a url. */
  method AppendLinkLines(lines: seq<string>, nd: seq<Attachment>) returns (r: Option<seq<string>>)
    ensures LinkLines(nd).None? ==> r.None?
    ensures LinkLines(nd).Some? ==> r == Some(lines + LinkLines(nd).value)
  {
    var lines' := lines;
    var j := 0;
    assert nd[..j] == [];
    while j < |nd|
      invariant j <= |nd|
      invariant LinkLines(nd[..j]).Some?
      invariant lines' == lines + LinkLines(nd[..j]).value
    {
      var attachment := nd[j];
      var displayName := DisplayName(attachment);
      if attachment.url.None? {
        LinkLinesFail(nd, j);
        return None;
      }
      lines' := lines' + ["- [" + displayName + "](" + attachment.url.value + ")"];
      LinkLinesStep(nd, j);
      j := j + 1;
    }
    assert nd[..j] == nd;
    r := Some(lines');
  }

  /** One more link line extends the list of the ones before it. */
  lemma LinkLinesStep(nd: seq<Attachment>, j: nat)
    requires j < |nd| && LinkLines(nd[..j]).Some? && nd[j].url.Some?
    ensures LinkLines(nd[..j + 1])
            == Some(LinkLines(nd[..j]).value + ["- [" + DisplayName(nd[j]) + "](" + nd[j].url.value + ")"])
  {
    assert nd[..j + 1][..j] == nd[..j];
  }

  /** One attachment without a url makes the whole link list fail. */
  lemma {:induction false} LinkLinesFail(nd: seq<Attachment>, j: nat)
    requires j < |nd| && nd[j].url.None?
    ensures LinkLines(nd).None?
  {
    if j < |nd| - 1 {
      LinkLinesFail(nd[..|nd| - 1], j);
    }
  }

  /**
   * The link list succeeds exactly when every attachment in it has a url,
   * and then holds one `- [name](url)` line per attachment, in order, the
   * name falling back to the url.
   */
  lemma {:induction false} LinkLinesFacts(nd: seq<Attachment>)
    ensures LinkLines(nd).Some? <==> forall j :: 0 <= j < |nd| ==> nd[j].url.Some?
    ensures LinkLines(nd).Some? ==>
              |LinkLines(nd).value| == |nd|
              && forall j :: 0 <= j < |nd| ==>
                   LinkLines(nd).value[j] == "- [" + DisplayName(nd[j]) + "](" + nd[j].url.value + ")"
  {
    if nd != [] {
      var init := nd[..|nd| - 1];
      LinkLinesFacts(init);
      if LinkLines(nd).Some? {
        forall j | 0 <= j < |nd| ensures nd[j].url.Some? {
          if j < |nd| - 1 {
            assert init[j] == nd[j];
          }
        }
      }
      if forall j :: 0 <= j < |nd| ==> nd[j].url.Some? {
        forall j | 0 <= j < |init| ensures init[j].url.Some? {
          assert init[j] == nd[j];
        }
        assert LinkLine(nd[|nd| - 1]).Some?;
      }
    }
  }

  /** The i-th image line sits at position `2i` and is followed by a blank line. */
  lemma {:induction false} ImageLinesAt(k: nat, i: nat)
    requires i < k
    ensures ImageLines(k)[2 * i] == ImageLine(i) && ImageLines(k)[2 * i + 1] == ""
  {
    if i < k - 1 {
      ImageLinesAt(k - 1, i);
    }
  }

  /** Different attachments get different image lines. */
  lemma ImageLineInjective(i: nat, j: nat)
    requires ImageLine(i) == ImageLine(j)
    ensures i == j
  {
    var a, b := Decimal(i), Decimal(j);
    assert |a| == |b|;
    assert ImageLine(i)[17..17 + |a|] == a;
    assert ImageLine(j)[17..17 + |b|] == b;
    DecimalInjective(i, j);
  }

  /** Among the first `k` image-line pairs, the line of attachment `j` is at position `2j` and nowhere else. */
  lemma ImageLinesExact(k: nat, j: nat, t: nat)
    requires t < 2 * k
    ensures ImageLines(k)[t] == ImageLine(j) <==> t == 2 * j
  {
    var i := t / 2;
    ImageLinesAt(k, i);
    if t == 2 * i {
      if ImageLine(i) == ImageLine(j) {
        ImageLineInjective(i, j);
      }
    } else {
      assert ImageLines(k)[t] == "";
      assert |ImageLine(j)| > 0;
    }
  }

  // ---------------------------------------------------------------------------
  // Properties of the body
  // ---------------------------------------------------------------------------

  /** Building the body fails exactly when an attachment to be listed as a link has no url. */
  lemma BodySucceeds(card: Card, includeAttachments: bool)
    ensures EntryBody(card, includeAttachments).None?
            <==> includeAttachments
                 && exists j :: 0 <= j < |NotDownloaded(card.attachments)|
                                && NotDownloaded(card.attachments)[j].url.None?
  {
    var nd := NotDownloaded(card.attachments);
    LinkLinesFacts(nd);
    if includeAttachments && card.attachments == [] {
      assert nd == [];
    }
  }

  /**
   * The body opens with the title line `# name` and a blank line; the
   * trimmed description and a blank line follow exactly when the
   * description is not all whitespace, and the trimmed description neither
   * starts nor ends with whitespace.
   */
  lemma BodyHead(card: Card, includeAttachments: bool)
    requires BodyLines(card, includeAttachments).Some?
    ensures var lines := BodyLines(card, includeAttachments).value;
            && |HeadLines(card)| <= |lines| && lines[..|HeadLines(card)|] == HeadLines(card)
            && lines[0] == "# " + card.name && lines[1] == ""
            && (|HeadLines(card)| == 4 <==> exists i :: 0 <= i < |card.desc| && !IsSpace(card.desc[i]))
            && (|HeadLines(card)| == 2 <==> forall i :: 0 <= i < |card.desc| ==> IsSpace(card.desc[i]))
            && (|HeadLines(card)| == 4 ==>
                  lines[2] == Strip(card.desc) && lines[3] == ""
                  && !IsSpace(lines[2][0]) && !IsSpace(lines[2][|lines[2]| - 1]))
  {
    StripFacts(card.desc);
  }

  /** The joined body starts with the title line and a line break. */
  lemma BodyStartsWithTitle(card: Card, includeAttachments: bool)
    requires EntryBody(card, includeAttachments).Some?
    ensures var body := EntryBody(card, includeAttachments).value;
            var title := "# " + card.name + "\n";
            |title| <= |body| && body[..|title|] == title
  {
    var lines := BodyLines(card, includeAttachments).value;
    BodyHead(card, includeAttachments);
    JoinStartsWith(lines, "\n");
  }

  /** Without attachments to show, the body is the head alone: no image line and no link section. */
  lemma BodyWithoutAttachments(card: Card, includeAttachments: bool)
    requires !includeAttachments || card.attachments == []
    ensures BodyLines(card, includeAttachments) == Some(HeadLines(card))
  {
  }

  /**
   * With attachments shown, the lines after the head are the image lines of
   * the downloaded attachments: the line of attachment `j` appears at
   * position `|head| + 2j` and at no other position of that stretch, so
   * there is exactly one for each `j < k`, in order.
   */
  lemma BodyImageLine(card: Card, includeAttachments: bool, j: nat, t: nat)
    requires includeAttachments && card.attachments != [] && BodyLines(card, includeAttachments).Some?
    requires |HeadLines(card)| <= t < |HeadLines(card)| + 2 * |Downloaded(card.attachments)|
    ensures BodyLines(card, includeAttachments).value[t] == ImageLine(j) <==> t == |HeadLines(card)| + 2 * j
  {
    var h, k := |HeadLines(card)|, |Downloaded(card.attachments)|;
    var lines := BodyLines(card, includeAttachments).value;
    assert lines[t] == ImageLines(k)[t - h];
    ImageLinesExact(k, j, t - h);
  }

  /**
   * With attachments shown, the image lines are followed by the link
   * section: nothing when every attachment was downloaded, otherwise the
   * heading, a blank line, one line per attachment that was not downloaded
   * (see `BodyLinkLine`) and a closing blank line.
   */
  lemma BodyOtherAttachments(card: Card, includeAttachments: bool)
    requires includeAttachments && card.attachments != [] && BodyLines(card, includeAttachments).Some?
    ensures var lines := BodyLines(card, includeAttachments).value;
            var nd := NotDownloaded(card.attachments);
            var start := |HeadLines(card)| + 2 * |Downloaded(card.attachments)|;
            && (nd == [] ==> |lines| == start)
            && (nd != [] ==>
                  && |lines| == start + |nd| + 3
                  && lines[start] == OtherHeading && lines[start + 1] == "" && lines[|lines| - 1] == "")
  {
    var nd := NotDownloaded(card.attachments);
    if nd != [] {
      assert |LinkLines(nd).value| == |nd| by {
        LinkLinesFacts(nd);
      }
    }
  }

  /**
   * The j-th attachment that was not downloaded has a url and its line
   * `- [name](url)` two lines after the heading plus `j`, the name falling
   * back to the url.
   */
  lemma BodyLinkLine(card: Card, includeAttachments: bool, j: nat)
    requires includeAttachments && BodyLines(card, includeAttachments).Some?
    requires j < |NotDownloaded(card.attachments)|
    ensures var lines := BodyLines(card, includeAttachments).value;
            var nd := NotDownloaded(card.attachments);
            var start := |HeadLines(card)| + 2 * |Downloaded(card.attachments)|;
            && nd[j].url.Some?
            && start + 2 + j < |lines|
            && lines[start + 2 + j] == "- [" + DisplayName(nd[j]) + "](" + nd[j].url.value + ")"
  {
    var nd := NotDownloaded(card.attachments);
    assert card.attachments != [];
    var links := LinkLines(nd).value;
    assert |links| == |nd| && links[j] == "- [" + DisplayName(nd[j]) + "](" + nd[j].url.value + ")"
    by {
      LinkLinesFacts(nd);
    }
    var prefix := HeadLines(card) + ImageLines(|Downloaded(card.attachments)|);
    assert BodyLines(card, includeAttachments).value == prefix + ([OtherHeading, ""] + links + [""]);
  }

  /** The placeholder of each downloaded attachment occurs in the joined body. */
  lemma BodyContainsPlaceholder(card: Card, includeAttachments: bool, i: nat)
    requires includeAttachments && EntryBody(card, includeAttachments).Some?
    requires i < |Downloaded(card.attachments)|
    ensures Contains(EntryBody(card, includeAttachments).value, Placeholder(i))
  {
    var h := |HeadLines(card)|;
    var lines := BodyLines(card, includeAttachments).value;
    BodyImageLine(card, includeAttachments, i, h + 2 * i);
    JoinContainsPart(lines, "\n", h + 2 * i);
    ContainsInfix("![](", Placeholder(i), ")");
    ContainsTransitive(EntryBody(card, includeAttachments).value, ImageLine(i), Placeholder(i));
  }

  // ---------------------------------------------------------------------------
  // collect_tags
  // ---------------------------------------------------------------------------

  /** `label.get("name")` is truthy. */
  predicate HasName(l: Label) {
    l.name != ""
  }

  function Names(ls: seq<Label>): seq<string> {
    seq(|ls|, i requires 0 <= i < |ls| => ls[i].name)
  }

  /** The list name when there is one, then every non-empty label name in label order. */
  function Tags(card: Card): seq<string> {
    (if card.listName != "" then [card.listName] else []) + Names(Filter(card.labels, HasName))
  }

  /** Collecting the tags with a loop over the labels, as `collect_tags` does. */
  method CollectTags(card: Card) returns (tags: seq<string>)
    ensures tags == Tags(card)
  {
    tags := [];
    var listName := card.listName;
    if listName != "" {
      tags := tags + [listName];
    }
    var labels := card.labels;
    var i := 0;
    while i < |labels|
      invariant i <= |labels|
      invariant tags == (if listName != "" then [listName] else []) + Names(Filter(labels[..i], HasName))
    {
      var l := labels[i];
      assert labels[..i + 1][..i] == labels[..i];
      if l.name != "" {
        tags := tags + [l.name];
      }
      i := i + 1;
    }
    assert labels[..i] == labels;
  }

  /**
   * The tags: the list name first when there is one, then label names; at
   * most one more than there are labels; none empty; and a string is a tag
   * exactly when it is the non-empty list name or some label's non-empty name.
   */
  lemma TagsFacts(card: Card)
    ensures |Tags(card)| <= 1 + |card.labels|
    ensures card.listName != "" ==> Tags(card)[0] == card.listName
    ensures card.listName == "" ==> Tags(card) == Names(Filter(card.labels, HasName))
    ensures forall t :: t in Tags(card) ==> t != ""
    ensures forall t :: t in Tags(card) <==>
              (t != "" && (t == card.listName || exists l :: l in card.labels && l.name == t))
  {
    var named := Filter(card.labels, HasName);
    FilterMembers(card.labels, HasName);
    forall t ensures t in Names(named) <==> (t != "" && exists l :: l in card.labels && l.name == t) {
      if t in Names(named) {
        var i :| 0 <= i < |named| && Names(named)[i] == t;
        assert named[i] in card.labels;
      }
      if t != "" && exists l :: l in card.labels && l.name == t {
        var l :| l in card.labels && l.name == t;
        var i :| 0 <= i < |named| && named[i] == l;
        assert Names(named)[i] == t;
      }
    }
  }

  /** Tags are not de-duplicated: a list name shared by two labels yields three equal tags. */
  lemma TagsKeepDuplicates(card: Card)
    requires card.listName == "x" && card.labels == [Label("x"), Label(""), Label("x")]
    ensures Tags(card) == ["x", "x", "x"]
  {
    var l := card.labels;
    assert l[..1][..0] == [];
    assert Filter(l[..1], HasName) == [Label("x")];
    assert l[..2][..1] == l[..1];
    assert Filter(l[..2], HasName) == [Label("x")];
    assert l[..|l| - 1] == l[..2];
    assert Filter(l, HasName) == [Label("x"), Label("x")];
  }

  lemma AppendAssociative<T>(x: seq<T>, y: seq<T>, z: seq<T>)
    ensures x + (y + z) == (x + y) + z
  {
  }

  lemma NamesAppend(a: seq<Label>, b: seq<Label>)
    ensures Names(a + b) == Names(a) + Names(b)
  {
  }

  /** More labels add their tags at the end, in order: collecting never reorders. */
  lemma TagsOfMoreLabels(card: Card, more: seq<Label>)
    ensures Tags(card.(labels := card.labels + more)) == Tags(card) + Names(Filter(more, HasName))
  {
    var card' := card.(labels := card.labels + more);
    var a, b := Filter(card.labels, HasName), Filter(more, HasName);
    assert Filter(card'.labels, HasName) == a + b by {
      FilterAppend(card.labels, more, HasName);
    }
    assert Names(a + b) == Names(a) + Names(b) by {
      NamesAppend(a, b);
    }
    var lead := if card.listName != "" then [card.listName] else [];
    AppendAssociative(lead, Names(a), Names(b));
  }

  // ---------------------------------------------------------------------------
  // card_to_entry
  // ---------------------------------------------------------------------------

  function LocalPaths(ds: seq<Attachment>): seq<string> {
    seq(|ds|, i requires 0 <= i < |ds| => ds[i].localPath)
  }

  /** The local paths of the downloaded attachments, in card order; none when attachments are left out. */
  function EntryPaths(card: Card, includeAttachments: bool): seq<string> {
    if includeAttachments then LocalPaths(Downloaded(card.attachments)) else []
  }

  /** `card.get("due") or card.get("dateLastActivity")`. */
  function RawCreationDate(card: Card): string {
    if card.due != "" then card.due else card.dateLastActivity
  }

  /**
   * The entry for a card: `create_entry` over the body, both parsed dates
   * and the tags, not starred, with `attachment_paths` added; `None` where
   * building the body raises. `now` is the clock reading and `uuid` the
   * identifier `create_entry` draws.
   */
  function CardEntry(card: Card, journal: string, includeAttachments: bool,
                     now: string, fromIso: string -> Option<string>, uuid: Uuid): Option<Record>
  {
    match EntryBody(card, includeAttachments)
    case Some(body) =>
      var entry := CreateEntry(body, ParseTrelloDate(RawCreationDate(card), now, fromIso),
                               ParseTrelloDate(card.dateLastActivity, now, fromIso), Tags(card),
                               false, journal, now, uuid);
      Some(entry["attachment_paths" := StringArray(EntryPaths(card, includeAttachments))])
    case None => None
  }

  /** Converting one card step by step, as `card_to_entry` does. */
  method CardToEntry(card: Card, journal: string, includeAttachments: bool,
                     now: string, fromIso: string -> Option<string>, uuid: Uuid) returns (entry: Option<Record>)
    ensures entry == CardEntry(card, journal, includeAttachments, now, fromIso, uuid)
  {
    var body := BuildEntryBody(card, includeAttachments);
    if body.None? {
      return None;
    }
    var tags := CollectTags(card);
    var creationDate := ParseTrelloDate(RawCreationDate(card), now, fromIso);
    var modifiedDate := ParseTrelloDate(card.dateLastActivity, now, fromIso);
    var attachmentPaths := [];
    if includeAttachments {
      attachmentPaths := CollectLocalPaths(card.attachments);
    }
    var record := CreateEntry(body.value, creationDate, modifiedDate, tags, false, journal, now, uuid);
    record := record["attachment_paths" := StringArray(attachmentPaths)];
    entry := Some(record);
  }

  /** The path loop of `card_to_entry`: the truthy `local_path`s, in order. */
  method CollectLocalPaths(attachments: seq<Attachment>) returns (paths: seq<string>)
    ensures paths == LocalPaths(Downloaded(attachments))
  {
    paths := [];
    var i := 0;
    while i < |attachments|
      invariant i <= |attachments|
      invariant paths == LocalPaths(Downloaded(attachments[..i]))
    {
      var localPath := attachments[i].localPath;
      assert attachments[..i + 1][..i] == attachments[..i];
      if localPath != "" {
        paths := paths + [localPath];
      }
      i := i + 1;
    }
    assert attachments[..i] == attachments;
  }

  /** Converting a card fails exactly when building its body does. */
  lemma CardEntryFails(card: Card, journal: string, includeAttachments: bool,
                       now: string, fromIso: string -> Option<string>, uuid: Uuid)
    ensures CardEntry(card, journal, includeAttachments, now, fromIso, uuid).None?
            <==> includeAttachments
                 && exists j :: 0 <= j < |NotDownloaded(card.attachments)|
                                && NotDownloaded(card.attachments)[j].url.None?
  {
    BodySucceeds(card, includeAttachments);
  }

  /**
   * The fields of a converted card: the Day One keys plus
   * `attachment_paths`; the body as text; not starred; the journal name;
   * the tags; the creation date parsed from `due` when set and from the
   * last activity otherwise; the modified date parsed from the last
   * activity (a parsed date that comes out empty falls back to `now`).
   */
  lemma CardEntryFields(card: Card, journal: string, includeAttachments: bool,
                        now: string, fromIso: string -> Option<string>, uuid: Uuid)
    requires CardEntry(card, journal, includeAttachments, now, fromIso, uuid).Some?
    ensures var e := CardEntry(card, journal, includeAttachments, now, fromIso, uuid).value;
            && e.Keys == EntryKeys + {"attachment_paths"}
            && EntryBody(card, includeAttachments).Some?
            && TextOf(e) == EntryBody(card, includeAttachments).value
            && e["starred"] == JBool(false) && e["journal"] == JString(journal) && e["uuid"] == JString(uuid)
            && e["tags"] == StringArray(Tags(card))
            && (card.due != "" && ParseTrelloDate(card.due, now, fromIso) != "" ==>
                  e["creationDate"] == JString(ParseTrelloDate(card.due, now, fromIso)))
            && (card.due == "" && ParseTrelloDate(card.dateLastActivity, now, fromIso) != "" ==>
                  e["creationDate"] == JString(ParseTrelloDate(card.dateLastActivity, now, fromIso)))
            && (ParseTrelloDate(card.dateLastActivity, now, fromIso) != "" ==>
                  e["modifiedDate"] == JString(ParseTrelloDate(card.dateLastActivity, now, fromIso)))
  {
  }

  /**
   * The `attachment_paths` of a converted card, as packaging reads them, are
   * the non-empty local paths of the downloaded attachments in card order,
   * one per image line of the body: the i-th path belongs to the attachment
   * whose placeholder is `{{ATTACHMENT_i}}`. Without attachments there are none.
   */
  lemma CardEntryPaths(card: Card, journal: string, includeAttachments: bool,
                       now: string, fromIso: string -> Option<string>, uuid: Uuid)
    requires CardEntry(card, journal, includeAttachments, now, fromIso, uuid).Some?
    ensures var e := CardEntry(card, journal, includeAttachments, now, fromIso, uuid).value;
            && AttachmentPaths(e) == EntryPaths(card, includeAttachments)
            && (!includeAttachments ==> AttachmentPaths(e) == [])
            && (includeAttachments ==>
                  && |AttachmentPaths(e)| == |Downloaded(card.attachments)|
                  && forall i :: 0 <= i < |AttachmentPaths(e)| ==>
                       AttachmentPaths(e)[i] == Downloaded(card.attachments)[i].localPath
                       && AttachmentPaths(e)[i] != "")
  {
    var paths := EntryPaths(card, includeAttachments);
    StringArrayRoundTrip(paths);
    if includeAttachments {
      var d := Downloaded(card.attachments);
      FilterMembers(card.attachments, IsDownloaded);
      forall i | 0 <= i < |d| ensures d[i].localPath != "" {
        assert d[i] in d;
      }
    }
  }

  /** The placeholder of every attachment path occurs in the text of the converted card. */
  lemma CardEntryPlaceholders(card: Card, journal: string, includeAttachments: bool,
                              now: string, fromIso: string -> Option<string>, uuid: Uuid, i: nat)
    requires CardEntry(card, journal, includeAttachments, now, fromIso, uuid).Some?
    requires i < |EntryPaths(card, includeAttachments)|
    ensures Contains(TextOf(CardEntry(card, journal, includeAttachments, now, fromIso, uuid).value), Placeholder(i))
  {
    BodyContainsPlaceholder(card, includeAttachments, i);
  }

  // ---------------------------------------------------------------------------
  // transform_cards
  // ---------------------------------------------------------------------------

  /** `{name.lower() for name in list_filter}`. */
  function Allowed(filter: seq<string>): set<string> {
    set name | name in filter :: Lower(name)
  }

  /** The card's lower-cased list name is allowed. */
  function InLists(allowed: set<string>): Card -> bool {
    (c: Card) => Lower(c.listName) in allowed
  }

  /** The cards to convert: all of them without a filter, else those whose list is allowed, in order. */
  function SelectCards(cards: seq<Card>, filter: seq<string>): seq<Card> {
    if filter == [] then cards else Filter(cards, InLists(Allowed(filter)))
  }

  /**
   * Without a filter every card is kept; with one, a card is kept exactly
   * when its list name equals some filter name up to ASCII case.
   */
  lemma SelectCardsMembers(cards: seq<Card>, filter: seq<string>)
    ensures filter == [] ==> SelectCards(cards, filter) == cards
    ensures filter != [] ==>
              forall c :: c in SelectCards(cards, filter) <==>
                c in cards && exists name :: name in filter && Lower(name) == Lower(c.listName)
  {
    FilterMembers(cards, InLists(Allowed(filter)));
  }

  /** Selection keeps the order of the cards. */
  lemma SelectCardsOrder(a: seq<Card>, b: seq<Card>, filter: seq<string>)
    ensures SelectCards(a + b, filter) == SelectCards(a, filter) + SelectCards(b, filter)
  {
    FilterAppend(a, b, InLists(Allowed(filter)));
  }

  function LowerAll(names: seq<string>): seq<string> {
    seq(|names|, i requires 0 <= i < |names| => Lower(names[i]))
  }

  /** The filter is case-insensitive: lower-casing its names first selects the same cards. */
  lemma SelectCardsIgnoresCase(cards: seq<Card>, filter: seq<string>)
    ensures SelectCards(cards, LowerAll(filter)) == SelectCards(cards, filter)
  {
    var lowered := LowerAll(filter);
    forall x ensures x in Allowed(lowered) <==> x in Allowed(filter) {
      if x in Allowed(lowered) {
        var n :| n in lowered && Lower(n) == x;
        var i :| 0 <= i < |lowered| && lowered[i] == n;
        LowerIdempotent(filter[i]);
      }
      if x in Allowed(filter) {
        var n :| n in filter && Lower(n) == x;
        var i :| 0 <= i < |filter| && filter[i] == n;
        LowerIdempotent(n);
        assert lowered[i] in lowered;
      }
    }
    assert Allowed(lowered) == Allowed(filter);
  }

  /** The clock, the ISO parser and the UUID generator: card `i` reads `now(i)` and draws `uuid4(i)`. */
  datatype Clocks = Clocks(now: nat -> string, fromIso: string -> Option<string>, uuid4: nat -> Uuid)

  /** The values `f(0)`, ..., `f(n - 1)`, when each of them is present; `None` otherwise. */
  function AllPresent<T>(f: nat -> Option<T>, n: nat): Option<seq<T>> {
    if n == 0 then Some([])
    else
      match (AllPresent(f, n - 1), f(n - 1))
      case (Some(init), Some(last)) => Some(init + [last])
      case _ => None
  }

  lemma {:induction false} AllPresentFacts<T>(f: nat -> Option<T>, n: nat)
    ensures AllPresent(f, n).Some? <==> forall i :: 0 <= i < n ==> f(i).Some?
    ensures AllPresent(f, n).Some? ==>
              |AllPresent(f, n).value| == n
              && forall i :: 0 <= i < n ==> f(i).Some? && AllPresent(f, n).value[i] == f(i).value
  {
    if n > 0 {
      AllPresentFacts(f, n - 1);
    }
  }

  /** Card `i` converted with its own clock reading and identifier. */
  function ConvertAt(cards: seq<Card>, journal: string, includeAttachments: bool, env: Clocks): nat -> Option<Record> {
    (i: nat) =>
      if i < |cards| then CardEntry(cards[i], journal, includeAttachments, env.now(i), env.fromIso, env.uuid4(i))
      else None
  }

  /** The entries of the cards, converted in order; `None` when one conversion fails. */
  function ConvertAll(cards: seq<Card>, journal: string, includeAttachments: bool, env: Clocks): Option<seq<Record>> {
    AllPresent(ConvertAt(cards, journal, includeAttachments, env), |cards|)
  }

  /** `transform_cards`: select the cards, then convert each of them. */
  function TransformCards(cards: seq<Card>, filter: seq<string>, journal: string, includeAttachments: bool,
                          env: Clocks): Option<seq<Record>> {
    ConvertAll(SelectCards(cards, filter), journal, includeAttachments, env)
  }

  /** Converting a list succeeds exactly when every card converts. */
  lemma ConvertAllSucceeds(cards: seq<Card>, journal: string, includeAttachments: bool, env: Clocks)
    ensures ConvertAll(cards, journal, includeAttachments, env).Some? <==>
              forall i :: 0 <= i < |cards| ==>
                CardEntry(cards[i], journal, includeAttachments, env.now(i), env.fromIso, env.uuid4(i)).Some?
    ensures ConvertAll(cards, journal, includeAttachments, env).Some? ==>
              |ConvertAll(cards, journal, includeAttachments, env).value| == |cards|
  {
    var f := ConvertAt(cards, journal, includeAttachments, env);
    AllPresentFacts(f, |cards|);
    forall i | 0 <= i < |cards|
      ensures f(i) == CardEntry(cards[i], journal, includeAttachments, env.now(i), env.fromIso, env.uuid4(i))
    {
    }
  }

  /** A converted list has one entry per card, in order: entry `i` is card `i` converted. */
  lemma ConvertAllAt(cards: seq<Card>, journal: string, includeAttachments: bool, env: Clocks, i: nat)
    requires ConvertAll(cards, journal, includeAttachments, env).Some? && i < |cards|
    ensures |ConvertAll(cards, journal, includeAttachments, env).value| == |cards|
    ensures CardEntry(cards[i], journal, includeAttachments, env.now(i), env.fromIso, env.uuid4(i)).Some?
    ensures ConvertAll(cards, journal, includeAttachments, env).value[i]
            == CardEntry(cards[i], journal, includeAttachments, env.now(i), env.fromIso, env.uuid4(i)).value
  {
    var f := ConvertAt(cards, journal, includeAttachments, env);
    AllPresentFacts(f, |cards|);
    assert f(i) == CardEntry(cards[i], journal, includeAttachments, env.now(i), env.fromIso, env.uuid4(i));
  }

  /** Without a filter, one entry per card, in input order. */
  lemma TransformCardsUnfiltered(cards: seq<Card>, journal: string, includeAttachments: bool, env: Clocks, i: nat)
    requires TransformCards(cards, [], journal, includeAttachments, env).Some? && i < |cards|
    ensures |TransformCards(cards, [], journal, includeAttachments, env).value| == |cards|
    ensures CardEntry(cards[i], journal, includeAttachments, env.now(i), env.fromIso, env.uuid4(i)).Some?
    ensures TransformCards(cards, [], journal, includeAttachments, env).value[i]
            == CardEntry(cards[i], journal, includeAttachments, env.now(i), env.fromIso, env.uuid4(i)).value
  {
    ConvertAllAt(cards, journal, includeAttachments, env, i);
  }
}
