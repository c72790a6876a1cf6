/** The normalising parts of `SearchParams`, the parameter object of a mail
    search: the setters that clamp or rewrite what they store, the
    localized contact-sort rewrite, the default limit, and the task-status
    attribute that `encodeParams` writes and `parse` reads when a search is
    proxied to another server. */
module SearchParameters {
  import opened Wrappers
  import opened JavaInts
  import opened JavaStrings
  import opened LocaleParsing
  import opened TaskStatuses

  const MAX_OFFSET: int32 := 10000000
  const MAX_LIMIT: int32 := 10000000

  /** `parseLimit`'s default and ceiling. */
  const DEFAULT_LIMIT: int32 := 30
  const MAX_PARSED_LIMIT: int32 := 1000

  const DEFAULT_FIELD: string := "content:"

  /** `SortBy`; the orders the rewrite does not look at are `OtherOrder`. */
  datatype SortBy =
    | DATE_DESC | DATE_ASC
    | NAME_ASC | NAME_DESC
    | NAME_LOCALIZED_ASC | NAME_LOCALIZED_DESC
    | OtherOrder(name: string)

  /** `MailItem.Type`; only CONTACT matters here. */
  datatype ItemType = CONTACT | OtherType(name: string)

  /** The setters' `if (x > MAX) x = MAX`: an upper bound only. */
  function ClampAbove(x: int32, max: int32): (r: int32)
    ensures r <= max && r <= x
    ensures r == x || r == max
  {
    if x > max then max else x
  }

  /** The limit `setChunkSize` stores: chunk plus offset in Java `int`
      arithmetic, clamped above. */
  function ChunkLimit(chunkSize: int32, offset: int32): (r: int32)
    ensures r <= MAX_LIMIT
    ensures -TWO_TO_31 <= chunkSize as int + offset as int < TWO_TO_31 ==>
      r as int == if chunkSize as int + offset as int > MAX_LIMIT as int
                  then MAX_LIMIT as int else chunkSize as int + offset as int
  {
    ClampAbove(AddInt(chunkSize, offset), MAX_LIMIT)
  }

  /** The sum wraps: a chunk of `Integer.MAX_VALUE` after offset 1 stores a
      negative limit. */
  lemma ChunkLimitWraps()
    ensures ChunkLimit(INT_MAX, 1) == -0x8000_0000
  {
  }

  /** `setDefaultField`: the stored field always ends with ':'. */
  function WithTrailingColon(field: string): (r: string)
    requires |field| > 0
    ensures |r| > 0 && r[|r| - 1] == ':'
    ensures field[|field| - 1] == ':' ==> r == field
    ensures field[|field| - 1] != ':' ==> r == field + ":"
  {
    if field[|field| - 1] != ':' then field + ":" else field
  }

  lemma WithTrailingColonIdempotent(field: string)
    requires |field| > 0
    ensures WithTrailingColon(WithTrailingColon(field)) == WithTrailingColon(field)
  {
  }

  /** `parseLimit`: the `limit` attribute as a `long` (absent: -1), cast to
      `int`, non-positive replaced by 30, capped at 1000. */
  function ParseLimit(attr: Option<int64>): (r: int32)
    ensures 1 <= r <= MAX_PARSED_LIMIT
    ensures attr.None? ==> r == DEFAULT_LIMIT
    ensures attr.Some? && 1 <= attr.value as int <= MAX_PARSED_LIMIT as int ==> r as int == attr.value as int
    ensures attr.Some? && MAX_PARSED_LIMIT as int < attr.value as int < TWO_TO_31 ==> r == MAX_PARSED_LIMIT
    ensures attr.Some? && -TWO_TO_31 <= attr.value as int <= 0 ==> r == DEFAULT_LIMIT
  {
    var limit := LongToInt(if attr.Some? then attr.value else -1);
    if limit <= 0 then DEFAULT_LIMIT
    else if limit > MAX_PARSED_LIMIT then MAX_PARSED_LIMIT
    else limit
  }

  /** The cast keeps only the low 32 bits: a limit of 2^32 + 5 reads as 5. */
  lemma ParseLimitTruncates()
    ensures ParseLimit(Some((TWO_TO_32 + 5) as int64)) == 5
  {
  }

  /** `parseOffset`: the `offset` attribute (absent: 0) cast to `int`. */
  function ParseOffset(attr: Option<int64>): (r: int32)
    ensures attr.None? ==> r == 0
    ensures attr.Some? && -TWO_TO_31 <= attr.value as int < TWO_TO_31 ==> r as int == attr.value as int
  {
    LongToInt(if attr.Some? then attr.value else 0)
  }

  /** `setSortBy(String)`: `SortBy.of` is a lookup in `table`; an unknown
      or missing name selects DATE_DESC. */
  function SortByName(value: Option<string>, table: map<string, SortBy>): (r: SortBy)
    ensures value.Some? && value.value in table ==> r == table[value.value]
    ensures value.None? || value.value !in table ==> r == DATE_DESC
  {
    if value.Some? && value.value in table then table[value.value] else DATE_DESC
  }

  /** The source's test "one type, and it is CONTACT" is "exactly {CONTACT}". */
  lemma OnlyContacts(types: set<ItemType>)
    ensures (|types| == 1 && CONTACT in types) <==> types == {CONTACT}
  {
    if |types| == 1 && CONTACT in types {
      assert |types - {CONTACT}| == 0;
    }
  }

  /** When the rewrite applies: the debug switch is on, the search is for
      contacts only, and a locale other than the system default is set. */
  predicate LocalizedSortApplies(enabled: bool, types: set<ItemType>, locale: Option<Locale>, systemLocale: Locale)
  {
    enabled && |types| == 1 && CONTACT in types && locale.Some? && locale.value != systemLocale
  }

  /** `checkForLocalizedContactSearch`: the name orders become their
      localized forms when the rewrite applies; nothing else changes. */
  function LocalizedSort(sortBy: Option<SortBy>, types: set<ItemType>, locale: Option<Locale>,
                         enabled: bool, systemLocale: Locale): (r: Option<SortBy>)
    ensures r != sortBy ==> enabled && types == {CONTACT} && locale.Some? && locale.value != systemLocale
    ensures LocalizedSortApplies(enabled, types, locale, systemLocale) && sortBy == Some(NAME_ASC) ==>
      r == Some(NAME_LOCALIZED_ASC)
    ensures LocalizedSortApplies(enabled, types, locale, systemLocale) && sortBy == Some(NAME_DESC) ==>
      r == Some(NAME_LOCALIZED_DESC)
    ensures sortBy != Some(NAME_ASC) && sortBy != Some(NAME_DESC) ==> r == sortBy
  {
    OnlyContacts(types);
    if LocalizedSortApplies(enabled, types, locale, systemLocale) && sortBy.Some? then
      match sortBy.value
      case NAME_ASC => Some(NAME_LOCALIZED_ASC)
      case NAME_DESC => Some(NAME_LOCALIZED_DESC)
      case _ => sortBy
    else sortBy
  }

  /** Rewriting an already rewritten order changes nothing. */
  lemma LocalizedSortIdempotent(sortBy: Option<SortBy>, types: set<ItemType>, locale: Option<Locale>,
                                enabled: bool, systemLocale: Locale)
    ensures var once := LocalizedSort(sortBy, types, locale, enabled, systemLocale);
      LocalizedSort(once, types, locale, enabled, systemLocale) == once
  {
  }

  class SearchParams {
    /** `DebugConfig.enableContactLocalizedSort` and `Locale.getDefault()`. */
    const localizedSortEnabled: bool
    const systemLocale: Locale

    var offset: int32
    var limit: int32
    var defaultField: string
    var sortBy: Option<SortBy>
    var types: set<ItemType>
    var locale: Option<Locale>
    var inlinedHeaders: Option<set<string>>
    var allowableTaskStatuses: Option<set<TaskStatus>>

    /** The bounds the setters keep. */
    ghost predicate Valid()
      reads this
    {
      && |defaultField| > 0 && defaultField[|defaultField| - 1] == ':'
      && offset <= MAX_OFFSET
      && limit <= MAX_LIMIT
    }

    constructor (localizedSortEnabled: bool, systemLocale: Locale)
      ensures Valid()
      ensures this.localizedSortEnabled == localizedSortEnabled && this.systemLocale == systemLocale
      ensures offset == 0 && limit == 0 && defaultField == DEFAULT_FIELD
      ensures sortBy == None && types == {} && locale == None
      ensures inlinedHeaders == None && allowableTaskStatuses == None
    {
      this.localizedSortEnabled := localizedSortEnabled;
      this.systemLocale := systemLocale;
      offset := 0;
      limit := 0;
      defaultField := DEFAULT_FIELD;
      sortBy := None;
      types := {};
      locale := None;
      inlinedHeaders := None;
      allowableTaskStatuses := None;
    }

    method SetOffset(x: int32)
      requires Valid()
      modifies this`offset
      ensures Valid() && offset == ClampAbove(x, MAX_OFFSET)
    {
      offset := x;
      if offset > MAX_OFFSET {
        offset := MAX_OFFSET;
      }
    }

    method SetLimit(x: int32)
      requires Valid()
      modifies this`limit
      ensures Valid() && limit == ClampAbove(x, MAX_LIMIT)
    {
      limit := x;
      if limit > MAX_LIMIT {
        limit := MAX_LIMIT;
      }
    }

    method SetChunkSize(chunkSize: int32)
      requires Valid()
      modifies this`limit
      ensures Valid() && limit == ChunkLimit(chunkSize, offset)
    {
      SetLimit(AddInt(chunkSize, offset));
    }

    /** `setDefaultField`: for an empty field `charAt(-1)` throws
        `StringIndexOutOfBoundsException` before anything is stored, which
        `outOfBounds` reports. */
    method SetDefaultField(field: string) returns (outOfBounds: bool)
      requires Valid()
      modifies this`defaultField
      ensures Valid()
      ensures outOfBounds <==> field == ""
      ensures outOfBounds ==> defaultField == old(defaultField)
      ensures !outOfBounds ==> defaultField == WithTrailingColon(field)
    {
      if |field| == 0 {
        return true;
      }
      outOfBounds := false;
      var f := field;
      if f[|f| - 1] != ':' {
        f := f + ":";
      }
      defaultField := f;
    }

    method CheckForLocalizedContactSearch()
      modifies this`sortBy
      ensures sortBy == LocalizedSort(old(sortBy), types, locale, localizedSortEnabled, systemLocale)
    {
      if localizedSortEnabled {
        if |types| == 1 && CONTACT in types && !(locale.None? || locale.value == systemLocale) {
          if locale.Some? {
            if sortBy.Some? {
              match sortBy.value {
                case NAME_ASC => sortBy := Some(NAME_LOCALIZED_ASC);
                case NAME_DESC => sortBy := Some(NAME_LOCALIZED_DESC);
                case _ =>
              }
            }
          }
        }
      }
    }

    method SetTypes(value: set<ItemType>)
      modifies this`types, this`sortBy
      ensures types == value
      ensures sortBy == LocalizedSort(old(sortBy), value, locale, localizedSortEnabled, systemLocale)
    {
      types := value;
      CheckForLocalizedContactSearch();
    }

    method SetSortBy(value: Option<SortBy>)
      modifies this`sortBy
      ensures sortBy == LocalizedSort(value, types, locale, localizedSortEnabled, systemLocale)
    {
      sortBy := value;
      CheckForLocalizedContactSearch();
    }

    /** `setSortBy(String)`, with `SortBy.of` as the lookup `table`. */
    method SetSortByName(value: Option<string>, table: map<string, SortBy>)
      modifies this`sortBy
      ensures sortBy == LocalizedSort(Some(SortByName(value, table)), types, locale, localizedSortEnabled, systemLocale)
    {
      var sort: Option<SortBy> := None;
      if value.Some? {
        sort := Get(table, value.value);
      }
      if sort.None? {
        sort := Some(DATE_DESC);
      }
      SetSortBy(sort);
    }

    method SetLocale(value: Option<Locale>)
      modifies this`locale, this`sortBy
      ensures locale == value
      ensures sortBy == LocalizedSort(old(sortBy), types, value, localizedSortEnabled, systemLocale)
    {
      locale := value;
      CheckForLocalizedContactSearch();
    }

    /** The header set is created on first use and only grows. */
    method AddInlinedHeader(name: string)
      modifies this`inlinedHeaders
      ensures inlinedHeaders == Some((if old(inlinedHeaders).Some? then old(inlinedHeaders).value else {}) + {name})
    {
      if inlinedHeaders.None? {
        inlinedHeaders := Some({});
      }
      inlinedHeaders := Some(inlinedHeaders.value + {name});
    }

    method SetAllowableTaskStatuses(statuses: Option<set<TaskStatus>>)
      modifies this`allowableTaskStatuses
      ensures allowableTaskStatuses == statuses
    {
      allowableTaskStatuses := statuses;
    }

    /** The task-status attribute `encodeParams` writes: absent when every
        status is allowed (null), otherwise the names joined with commas. */
    method EncodeTaskStatusAttribute() returns (attr: Option<string>)
      ensures attr.None? <==> allowableTaskStatuses.None?
      ensures attr.Some? ==>
        && ListsEachOnce(attr.value, allowableTaskStatuses.value)
        && ParseTaskStatusList(attr.value) == allowableTaskStatuses.value
    {
      if allowableTaskStatuses.Some? {
        var s := JoinStatusNames(allowableTaskStatuses.value);
        attr := Some(s);
      } else {
        attr := None;
      }
    }

    /** How `parse` fills the allowed statuses from the attribute. */
    method ParseTaskStatusAttribute(attr: Option<string>)
      modifies this`allowableTaskStatuses
      ensures attr.None? ==> allowableTaskStatuses == old(allowableTaskStatuses)
      ensures attr.Some? ==> allowableTaskStatuses == Some(ParseTaskStatusList(attr.value))
    {
      if attr.Some? {
        var statuses := ParseTaskStatuses(attr.value);
        allowableTaskStatuses := Some(statuses);
      }
    }
  }

  /** Proxying a search: the receiving server's freshly parsed parameters
      allow exactly the task statuses the sender's did. */
  method ProxyTaskStatuses(sender: SearchParams) returns (receiver: SearchParams)
    ensures receiver.allowableTaskStatuses == sender.allowableTaskStatuses
  {
    var attr := sender.EncodeTaskStatusAttribute();
    receiver := new SearchParams(sender.localizedSortEnabled, sender.systemLocale);
    receiver.ParseTaskStatusAttribute(attr);
  }
}
