/** The `tasks.image_id` foreign key: nullable, referencing `images.id`,
    with set-null on delete. */
module ImageForeignKey {
  import opened Wrappers
  import ImageStore
  import TaskModel

  /** Every non-null `image_id` names an existing image row. */
  predicate Referenced(tasks: map<TaskModel.TaskId, TaskModel.Task>, table: ImageStore.ImageTable)
  {
    forall k :: k in tasks && tasks[k].imageId.Some? ==> tasks[k].imageId.value in table.rows
  }

  /** The two tables after a row of `images` is deleted. */
  datatype Tables = Tables(tasks: map<TaskModel.TaskId, TaskModel.Task>, images: ImageStore.ImageTable)

  /** The set-null action applied to one task. */
  function ClearReference(t: TaskModel.Task, id: ImageStore.ImageId): TaskModel.Task
  {
    if t.imageId == Some(id) then t.(imageId := None) else t
  }

  /** Deleting image `id`: the row goes, and every task that referenced it
      keeps existing with `image_id` set to null. */
  function DeleteImage(tasks: map<TaskModel.TaskId, TaskModel.Task>, table: ImageStore.ImageTable,
                       id: ImageStore.ImageId): (r: Tables)
    ensures r.images.rows == table.rows - {id} && r.images.nextId == table.nextId
    ensures r.tasks.Keys == tasks.Keys
    ensures forall k :: k in r.tasks ==> r.tasks[k].imageId != Some(id)
    ensures forall k :: k in r.tasks ==>
      r.tasks[k] == (if tasks[k].imageId == Some(id) then tasks[k].(imageId := None) else tasks[k])
    ensures ImageStore.Valid(table) ==> ImageStore.Valid(r.images)
    ensures Referenced(tasks, table) ==> Referenced(r.tasks, r.images)
  {
    Tables(map k | k in tasks :: ClearReference(tasks[k], id),
           ImageStore.ImageTable(table.rows - {id}, table.nextId))
  }
}
