/** The `tags` table: rows with a generated id and a unique name, and the
    lookups the services make on it (`TagRepository.findByName`/`findById`,
    `TagService.getTagByName`/`getTagById`, and find-or-create by name). */
module TagTable {
  import opened Common
  import opened Strings
  import opened Seqs
  import opened ImageEntity

  /** The rows in insertion order, and the next identity value. */
  datatype Tags = Tags(rows: seq<Tag>, nextId: int)

  /** Ids and names are unique, and every id was issued before `nextId`. */
  predicate Valid(t: Tags) {
    && (forall i, j :: 0 <= i < j < |t.rows| ==> t.rows[i].name != t.rows[j].name)
    && (forall i, j :: 0 <= i < j < |t.rows| ==> t.rows[i].id != t.rows[j].id)
    && (forall i :: 0 <= i < |t.rows| ==> t.rows[i].id < t.nextId)
  }

  /** `findByName`: the row with that name, if any. */
  function FindByName(t: Tags, name: string): (r: Option<Tag>)
    ensures r.Some? ==> r.value in t.rows && r.value.name == name
    ensures r.None? <==> forall i :: 0 <= i < |t.rows| ==> t.rows[i].name != name
  {
    FirstWhere(t.rows, (row: Tag) => row.name == name)
  }

  /** `findById`: the row with that id, if any. */
  function FindById(t: Tags, id: int): (r: Option<Tag>)
    ensures r.Some? ==> r.value in t.rows && r.value.id == id
    ensures r.None? <==> forall i :: 0 <= i < |t.rows| ==> t.rows[i].id != id
  {
    FirstWhere(t.rows, (row: Tag) => row.id == id)
  }

  /** In a valid table the lookup by name finds the one row carrying it. */
  lemma {:induction false} FindByNameUnique(t: Tags, i: int)
    requires Valid(t) && 0 <= i < |t.rows|
    ensures FindByName(t, t.rows[i].name) == Some(t.rows[i])
  {
    var r := FindByName(t, t.rows[i].name);
    var j :| 0 <= j < |t.rows| && t.rows[j] == r.value;
    assert t.rows[j].name == t.rows[i].name;
  }

  function NotFoundMessage(key: string): string {
    "标签不存在: " + key
  }

  /** `TagService.getTagByName`: the row, or a failure naming the tag. */
  function GetTagByName(t: Tags, name: string): (r: Result<Tag>)
    ensures r.Ok? <==> exists i :: 0 <= i < |t.rows| && t.rows[i].name == name
    ensures r.Ok? ==> r.value in t.rows && r.value.name == name
    ensures r.Err? ==> r.failure == Runtime(NotFoundMessage(name))
  {
    match FindByName(t, name)
    case Some(tag) => Ok(tag)
    case None => Err(Runtime(NotFoundMessage(name)))
  }

  /** `TagService.getTagById`: the row, or a failure naming the id. */
  function GetTagById(t: Tags, id: int): (r: Result<Tag>)
    ensures r.Ok? <==> exists i :: 0 <= i < |t.rows| && t.rows[i].id == id
    ensures r.Ok? ==> r.value in t.rows && r.value.id == id
    ensures r.Err? ==> r.failure == Runtime(NotFoundMessage(IntToString(id)))
  {
    match FindById(t, id)
    case Some(tag) => Ok(tag)
    case None => Err(Runtime(NotFoundMessage(IntToString(id))))
  }

  /** Find the tag by name, or insert a new row with that name and category. */
  function FindOrCreate(t: Tags, name: string, category: string): (r: (Tag, Tags))
    ensures r.0.name == name
    ensures FindByName(t, name).Some? ==> r == (FindByName(t, name).value, t)
    ensures FindByName(t, name).None? ==>
              && r.0 == Tag(t.nextId, name, category)
              && r.1 == Tags(t.rows + [r.0], t.nextId + 1)
  {
    match FindByName(t, name)
    case Some(tag) => (tag, t)
    case None =>
      var tag := Tag(t.nextId, name, category);
      (tag, Tags(t.rows + [tag], t.nextId + 1))
  }

  /** Find-or-create keeps the table valid, and asking again for the same
      name finds the same tag and changes nothing. */
  lemma {:induction false} FindOrCreateStable(t: Tags, name: string, category: string, category2: string)
    requires Valid(t)
    ensures Valid(FindOrCreate(t, name, category).1)
    ensures var (tag, t1) := FindOrCreate(t, name, category);
            FindOrCreate(t1, name, category2) == (tag, t1)
  {
    var (tag, t1) := FindOrCreate(t, name, category);
    if FindByName(t, name).None? {
      assert t1.rows[|t.rows|] == tag;
      FindByNameUnique(t1, |t.rows|);
    }
  }
}
