/** Python's `None`-or-value. */
module Wrappers {
  datatype Option<+T> = None | Some(value: T)
}

/** The exception family of the backend, the shared table of error codes, and the `exc_handler`
    decorator that translates whatever a store call raises. */
module Exceptions {

  /** One entry of `ErrorsList`: an error type and its human-readable message. */
  datatype ErrorInfo = ErrorInfo(errorType: string, errorMessage: string)

  const AuthorNotExists := ErrorInfo("AUTHOR_NOT_EXIST", "автор, запросивший операцию, не существует")
  const RecursiveFollow := ErrorInfo("RECURSIVE_FOLLOW", "автор фолловит сам себя")
  const TweetNotExists := ErrorInfo("TWEET_NOT_EXIST", "операции над несуществующим твитом невозможны")
  const NotSelfTweetRemove := ErrorInfo("TWEET_NOT_BELONGS_TO_AUTHOR", "нельзя удалять чужие твиты, редиска")
  const DoubleLike := ErrorInfo("DOUBLE_LIKE_ERROR", "автор пытался закинуть несколько лайков на твит")
  const RemoveNotExistLike := ErrorInfo("REMOVE_NOT_EXITS_LIKE", "автор  пытался удалить несуществующий лайк на твит")
  const MediaImportError := ErrorInfo("MEDIA_IMPORT_ERROR", "непредвиденная ошибка сохранения картинки")
  const IncorrectPassword := ErrorInfo("INCORRECT_PASSWORD", "неверный пароль")
  const IncorrectParameters := ErrorInfo("INCORRECT_PARAMETERS", "неверные параметры")
  const NotAuthorized := ErrorInfo("AUTH_ERROR", "отсутствует api-key в HTTP-заголовке")
  const ApiKeyNotExists := ErrorInfo("AUTH_ERROR", "неправильный api-key")
  const ConnectionRefused := ErrorInfo("CON_REFUSED", "соединение с СУБД было сброшено. Проверьте контейнер с СУБД")
  const PostgresQueryError := ErrorInfo("POSTGRES_QUERY_ERROR", "Неверный запрос к БД")
  const SerializeError := ErrorInfo("PYDANTIC_SERIALIZE_ERROR", "Ошибка сериализации данных")

  /** The classes of the family: `AuthException` and `InternalServerException` derive from
      `BackendException`. */
  datatype ExcClass = BackendException | AuthException | InternalServerException

  /** `issubclass(c, base)` within the family. */
  predicate IsSubclass(c: ExcClass, base: ExcClass)
  {
    c == base || base == BackendException
  }

  /** The method resolution order of a class of the family, most derived first, cut below
      `BackendException`. */
  function Mro(c: ExcClass): (r: seq<ExcClass>)
    ensures |r| > 0 && r[0] == c && r[|r| - 1] == BackendException
    ensures forall i :: 0 <= i < |r| ==> IsSubclass(c, r[i])
    ensures IsSubclass(c, BackendException) && BackendException in r
  {
    if c == BackendException then [c] else [c, BackendException]
  }

  /** A raised member of the family. Its `result` attribute is always false. */
  datatype BackendError = BackendError(cls: ExcClass, info: ErrorInfo)
  {
    const result: bool := false
    const errorType: string := info.errorType
    const errorMessage: string := info.errorMessage
  }

  /** Any exception the modelled code can raise: the family, and the foreign ones that it lets
      escape (from the database driver, from `random.sample`, from an attribute read). */
  datatype Exc =
    | Backend(err: BackendError)
    | ConnectionRefusedError  // the database server does not accept connections
    | IntegrityError          // a unique or foreign-key constraint rejected an insert
    | DataError               // a value is longer than its VARCHAR column
    | ValueError              // `random.sample` asked for more elements than the population has
    | AttributeError          // read of an instance attribute that was never assigned
    | OSError                 // a file could not be opened for writing
    | ArgumentError           // SQLAlchemy refuses to build a query from a malformed argument

  /** The outcome of a call: a returned value or a raised exception. */
  datatype Outcome<+T> = Return(value: T) | Raise(exc: Exc)
  {
    predicate IsFailure()
    {
      Raise?
    }

    function PropagateFailure<U>(): Outcome<U>
      requires Raise?
    {
      Raise(exc)
    }

    function Extract(): T
      requires Return?
    {
      value
    }
  }

  /** `raise cls(**info)` */
  function Throw<T>(cls: ExcClass, info: ErrorInfo): Outcome<T>
  {
    Raise(Backend(BackendError(cls, info)))
  }

  /** The wrapper that `@exc_handler(...)` puts around a store call. Its argument is never read,
      so the model has none. */
  function ExcHandler<T>(o: Outcome<T>): (r: Outcome<T>)
    ensures o.Return? ==> r == o
    ensures o.Raise? ==> r.Raise? && r.exc.Backend? && r.exc.err.cls != AuthException
    ensures o.Raise? && o.exc == ConnectionRefusedError ==> r == Throw(InternalServerException, ConnectionRefused)
    ensures o.Raise? && o.exc != ConnectionRefusedError ==> r == Throw(BackendException, PostgresQueryError)
  {
    match o
    case Return(_) => o
    case Raise(ConnectionRefusedError) => Throw(InternalServerException, ConnectionRefused)
    case Raise(_) => Throw(BackendException, PostgresQueryError)
  }

  /** A family member raised inside a wrapped call, whatever its class and code, reaches the
      caller as POSTGRES_QUERY_ERROR. */
  lemma ExcHandlerMasksBackendErrors<T>(e: BackendError)
    ensures ExcHandler<T>(Raise(Backend(e))) == Throw(BackendException, PostgresQueryError)
  {
  }

  /** Both authentication failures carry AUTH_ERROR; only the message tells them apart. */
  lemma AuthErrorsShareType()
    ensures NotAuthorized.errorType == ApiKeyNotExists.errorType == "AUTH_ERROR"
    ensures NotAuthorized.errorMessage != ApiKeyNotExists.errorMessage
  {
  }
}
