/** The TodoApp component: three state cells (`todos`, `newTodo`, `loading`)
    and the handlers that change them after one call to the item store each.
    The store's reply to each call is a parameter; the requests the component
    sends and the notifications it shows are appended to two logs. */
module TodoComponent {
  import opened Text
  import opened Todos

  /** How one store call ends: `{success: true, data}`, `{success: false}`,
      or a rejected promise. */
  datatype Response<T> = Ok(data: T) | NotSuccess | Rejected

  /** The fields sent to `Item.create`. */
  datatype CreatePayload = CreatePayload(title: string, completed: bool, userId: int)

  /** One call to the item store. */
  datatype Request =
    | ListAll
    | Create(fields: CreatePayload)
    | Update(id: Id, item: Todo)
    | Delete(id: Id)

  datatype Kind = Success | Warning | Error

  /** One notification shown through antd's `message`. */
  datatype Message = Message(kind: Kind, text: string)

  /** The owner written on every created item. */
  const OwnerUserId: int := 1

  const LoadFailed := "Failed to load todos"
  const EnterValue := "Please enter a todo item"
  const Added := "Todo added successfully"
  const AddFailed := "Failed to add todo"
  const UpdateFailed := "Failed to update todo"
  const Deleted := "Todo deleted successfully"
  const DeleteFailed := "Failed to delete todo"

  /** The input check and payload of the add handler: nothing is sent for
      blank input; otherwise the trimmed text, not completed, owned by the
      constant user. */
  function CreateRequest(raw: string): (r: Option<CreatePayload>)
    ensures r.None? <==> AllWhitespace(raw)
    ensures r.Some? ==> r.value.title != [] && r.value.title == Trim(raw)
    ensures r.Some? ==> !r.value.completed && r.value.userId == OwnerUserId
  {
    TrimEmptyIffBlank(raw);
    var title := Trim(raw);
    if title == [] then None else Some(CreatePayload(title, false, OwnerUserId))
  }

  /** The fields sent to `Item.update`: the item as the caller passed it with
      its flag negated. */
  function UpdateFields(todo: Todo): (r: Todo)
    ensures r.completed != todo.completed
    ensures r.(completed := todo.completed) == todo
  {
    todo.(completed := !todo.completed)
  }

  /** The ids carried by the items of `todos`. */
  function IdsOf(todos: seq<Todo>): set<Id>
  {
    set k | 0 <= k < |todos| :: todos[k].id
  }

  class TodoApp {
    var todos: seq<Todo>
    var newTodo: string
    var loading: bool
    /** Every notification shown so far, oldest first. */
    var messages: seq<Message>
    /** Every call sent to the item store so far, oldest first. */
    var requests: seq<Request>
    /** The ids the store has handed out in successful list and create replies. */
    ghost var issued: set<Id>

    /** Every local item carries an id that came from the store. */
    ghost predicate Valid()
      reads this
      ensures Valid() <==> IdsOf(todos) <= issued
    {
      forall k :: 0 <= k < |todos| ==> todos[k].id in issued
    }

    /** Mounting: the initial cells, then the mount effect's load. */
    constructor (initialLoad: Response<seq<Todo>>)
      ensures Valid()
      ensures issued == if initialLoad.Ok? then IdsOf(initialLoad.data) else {}
      ensures todos == (if initialLoad.Ok? then initialLoad.data else [])
      ensures newTodo == "" && !loading
      ensures requests == [ListAll]
      ensures messages == if initialLoad.Rejected? then [Message(Error, LoadFailed)] else []
    {
      todos, newTodo, loading := [], "", false;
      messages, requests := [], [];
      issued := {};
      new;
      LoadTodos(initialLoad);
    }

    /** The input's change handler. */
    method SetNewTodo(value: string)
      modifies this`newTodo
      ensures newTodo == value
    {
      newTodo := value;
    }

    /** Replaces the list with the store's on success; `loading` is false
        afterwards on every path. */
    method LoadTodos(response: Response<seq<Todo>>)
      requires Valid()
      modifies this
      ensures Valid()
      ensures issued == old(issued) + if response.Ok? then IdsOf(response.data) else {}
      ensures requests == old(requests) + [ListAll]
      ensures todos == if response.Ok? then response.data else old(todos)
      ensures messages == old(messages) + if response.Rejected? then [Message(Error, LoadFailed)] else []
      ensures newTodo == old(newTodo) && !loading
    {
      loading := true;
      requests := requests + [ListAll];
      match response {
        case Ok(data) =>
          issued := issued + IdsOf(data);
          todos := data;
        case NotSuccess =>
        case Rejected =>
          messages := messages + [Message(Error, LoadFailed)];
      }
      loading := false;
    }

    /** Blank input: one warning and no call. Otherwise one create call with
        the trimmed text; on success the returned item is appended and the
        input cleared, on rejection one error, on `success: false` nothing. */
    method AddTodo(response: Response<Todo>)
      requires Valid()
      modifies this
      ensures Valid()
      ensures issued == if !AllWhitespace(old(newTodo)) && response.Ok? then old(issued) + {response.data.id} else old(issued)
      ensures loading == old(loading)
      ensures AllWhitespace(old(newTodo)) ==>
                && todos == old(todos) && newTodo == old(newTodo)
                && requests == old(requests)
                && messages == old(messages) + [Message(Warning, EnterValue)]
      ensures !AllWhitespace(old(newTodo)) ==>
                && requests == old(requests) + [Create(CreatePayload(Trim(old(newTodo)), false, OwnerUserId))]
                && todos == (if response.Ok? then old(todos) + [response.data] else old(todos))
                && newTodo == (if response.Ok? then "" else old(newTodo))
                && messages == old(messages) + match response
                                                case Ok(_) => [Message(Success, Added)]
                                                case NotSuccess => []
                                                case Rejected => [Message(Error, AddFailed)]
    {
      var payload := CreateRequest(newTodo);
      if payload.None? {
        messages := messages + [Message(Warning, EnterValue)];
        return;
      }
      requests := requests + [Create(payload.value)];
      match response {
        case Ok(item) =>
          issued := issued + {item.id};
          todos := todos + [item];
          newTodo := "";
          messages := messages + [Message(Success, Added)];
        case NotSuccess =>
        case Rejected =>
          messages := messages + [Message(Error, AddFailed)];
      }
    }

    /** One update call with the passed item's flag negated; on success each
        local item with that id has its own current flag negated. */
    method ToggleTodo(todo: Todo, response: Response<Todo>)
      requires Valid()
      modifies this
      ensures Valid()
      ensures requests == old(requests) + [Update(todo.id, UpdateFields(todo))]
      ensures todos == if response.Ok? then Toggled(old(todos), todo.id) else old(todos)
      ensures messages == old(messages) + if response.Rejected? then [Message(Error, UpdateFailed)] else []
      ensures newTodo == old(newTodo) && loading == old(loading) && issued == old(issued)
    {
      requests := requests + [Update(todo.id, UpdateFields(todo))];
      match response {
        case Ok(_) =>
          ToggledKeepsIds(todos, todo.id);
          todos := Toggled(todos, todo.id);
        case NotSuccess =>
        case Rejected =>
          messages := messages + [Message(Error, UpdateFailed)];
      }
    }

    /** One delete call; on success every local item with that id is dropped,
        whether or not the store held it. */
    method DeleteTodo(id: Id, response: Response<()>)
      requires Valid()
      modifies this
      ensures Valid()
      ensures requests == old(requests) + [Delete(id)]
      ensures todos == if response.Ok? then Removed(old(todos), id) else old(todos)
      ensures messages == old(messages) + match response
                                          case Ok(_) => [Message(Success, Deleted)]
                                          case NotSuccess => []
                                          case Rejected => [Message(Error, DeleteFailed)]
      ensures newTodo == old(newTodo) && loading == old(loading) && issued == old(issued)
    {
      requests := requests + [Delete(id)];
      match response {
        case Ok(_) =>
          todos := Removed(todos, id);
          messages := messages + [Message(Success, Deleted)];
        case NotSuccess =>
        case Rejected =>
          messages := messages + [Message(Error, DeleteFailed)];
      }
    }

    /** Enter in the input runs the add handler; any other key does nothing. */
    method HandleKeyPress(key: string, response: Response<Todo>)
      requires Valid()
      modifies this
      ensures Valid()
      ensures key != "Enter" ==> unchanged(this)
      ensures issued == if key == "Enter" && !AllWhitespace(old(newTodo)) && response.Ok? then old(issued) + {response.data.id} else old(issued)
      ensures key == "Enter" && AllWhitespace(old(newTodo)) ==>
                && todos == old(todos) && newTodo == old(newTodo)
                && requests == old(requests)
                && messages == old(messages) + [Message(Warning, EnterValue)]
      ensures key == "Enter" && !AllWhitespace(old(newTodo)) ==>
                && requests == old(requests) + [Create(CreatePayload(Trim(old(newTodo)), false, OwnerUserId))]
                && todos == (if response.Ok? then old(todos) + [response.data] else old(todos))
                && newTodo == (if response.Ok? then "" else old(newTodo))
                && messages == old(messages) + match response
                                                case Ok(_) => [Message(Success, Added)]
                                                case NotSuccess => []
                                                case Rejected => [Message(Error, AddFailed)]
      ensures loading == old(loading)
    {
      if key == "Enter" {
        AddTodo(response);
      }
    }
  }
}
