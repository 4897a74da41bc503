/** The records the to-do list handles. */
module Records {

  datatype Option<T> = None | Some(value: T)

  /** The fields of a stored to-do document: what `addDoc` writes and `doc.data()`
      returns. `userName` is the session's display name, or absent when the session
      had none. */
  datatype Fields = Fields(userName: Option<string>, text: string, date: string, completed: bool)

  /** A document of the remote `todos` collection: its store-assigned id and its data. */
  datatype Doc = Doc(id: string, data: Fields)

  /** A record of the component's `todos` state. Records fetched from the store carry
      `userName`; the one that addTodo appends locally does not. */
  datatype Todo = Todo(id: string, userName: Option<string>, text: string, date: string, completed: bool)

  /** `{ id: doc.id, ...doc.data() }`. */
  function FromDoc(d: Doc): (t: Todo)
    ensures t.id == d.id && Fields(t.userName, t.text, t.date, t.completed) == d.data
  {
    Todo(d.id, d.data.userName, d.data.text, d.data.date, d.data.completed)
  }

  /** The record with its `completed` flag inverted: `{ ...todo, completed: !todo.completed }`. */
  function Flip(t: Todo): (r: Todo)
    ensures r.completed == !t.completed && r.(completed := t.completed) == t
  {
    t.(completed := !t.completed)
  }
}
