/**
 * The two stages together: an entry made from a card by the transformation
 * is one the packaging pass accepts, and packaging it turns the placeholder
 * of each downloaded attachment whose file exists into that attachment's
 * `dayone-moment://` reference, while the placeholders of missing files
 * stay in the text.
 */
module Pipeline {
  import opened Strings
  import opened Values
  import opened Placeholders
  import opened DayOne
  import opened Transform

  /** A converted card satisfies what packaging demands of an entry. */
  lemma CardEntryPackable(card: Card, journal: string, includeAttachments: bool,
                          now: string, fromIso: string -> Option<string>, uuid: Uuid, env: Oracles)
    requires CardEntry(card, journal, includeAttachments, now, fromIso, uuid).Some?
    ensures Packable(CardEntry(card, journal, includeAttachments, now, fromIso, uuid).value, env)
  {
    var e := CardEntry(card, journal, includeAttachments, now, fromIso, uuid).value;
    CardEntryFields(card, journal, includeAttachments, now, fromIso, uuid);
    StringArrayRoundTrip(EntryPaths(card, includeAttachments));
    assert e["attachment_paths"] == StringArray(EntryPaths(card, includeAttachments));
  }

  /** Every entry `transform_cards` returns can be handed to `write_dayone_zip`. */
  lemma TransformedPackable(cards: seq<Card>, filter: seq<string>, journal: string, includeAttachments: bool,
                            clocks: Clocks, env: Oracles)
    requires TransformCards(cards, filter, journal, includeAttachments, clocks).Some?
    ensures AllPackable(TransformCards(cards, filter, journal, includeAttachments, clocks).value, env)
  {
    var selected := SelectCards(cards, filter);
    var es := TransformCards(cards, filter, journal, includeAttachments, clocks).value;
    ConvertAllSucceeds(selected, journal, includeAttachments, clocks);
    forall i | 0 <= i < |es| ensures Packable(es[i], env) {
      ConvertAllAt(selected, journal, includeAttachments, clocks, i);
      CardEntryPackable(selected[i], journal, includeAttachments, clocks.now(i), clocks.fromIso, clocks.uuid4(i), env);
    }
  }

  /**
   * Packaging a converted card: the placeholder of the i-th downloaded
   * attachment is gone from the text when its file exists, and still there
   * when it does not.
   */
  lemma PackagedCardPlaceholder(card: Card, journal: string, includeAttachments: bool,
                                now: string, fromIso: string -> Option<string>, uuid: Uuid,
                                run: Run, env: Oracles, i: nat)
    requires CardEntry(card, journal, includeAttachments, now, fromIso, uuid).Some?
    requires i < |EntryPaths(card, includeAttachments)|
    ensures var e := CardEntry(card, journal, includeAttachments, now, fromIso, uuid).value;
            var text := TextOf(PackEntry(e, run, env).entry);
            && (env.isFile(EntryPaths(card, includeAttachments)[i]) ==> !Contains(text, Placeholder(i)))
            && (!env.isFile(EntryPaths(card, includeAttachments)[i]) ==> Contains(text, Placeholder(i)))
  {
    var e := CardEntry(card, journal, includeAttachments, now, fromIso, uuid).value;
    CardEntryPaths(card, journal, includeAttachments, now, fromIso, uuid);
    CardEntryPlaceholders(card, journal, includeAttachments, now, fromIso, uuid, i);
    PackEntryText(e, run, env);
  }

  /**
   * Every descriptor of a packaged card belongs to a downloaded attachment
   * whose file exists, and the text holds that descriptor's reference.
   */
  lemma PackagedCardReference(card: Card, journal: string, includeAttachments: bool,
                              now: string, fromIso: string -> Option<string>, uuid: Uuid,
                              run: Run, env: Oracles, k: nat)
    requires CardEntry(card, journal, includeAttachments, now, fromIso, uuid).Some?
    requires k < |PackEntry(CardEntry(card, journal, includeAttachments, now, fromIso, uuid).value, run, env).photos|
    ensures var e := CardEntry(card, journal, includeAttachments, now, fromIso, uuid).value;
            var p := PackEntry(e, run, env);
            && p.photos[k].orderInEntry < |EntryPaths(card, includeAttachments)|
            && env.isFile(EntryPaths(card, includeAttachments)[p.photos[k].orderInEntry])
            && Contains(TextOf(p.entry), MomentRef(p.photos[k].identifier))
  {
    var e := CardEntry(card, journal, includeAttachments, now, fromIso, uuid).value;
    var paths := AttachmentPaths(e);
    CardEntryPaths(card, journal, includeAttachments, now, fromIso, uuid);
    PackPathsPositions(paths, |paths|, run, env);
    var j := PackEntry(e, run, env).photos[k].orderInEntry;
    CardEntryPlaceholders(card, journal, includeAttachments, now, fromIso, uuid, j);
    PackEntryText(e, run, env);
  }
}
