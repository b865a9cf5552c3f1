/** The upload page: the uploader selector and the page's post handler, which
    refuses an empty submission and otherwise runs the chosen uploader. */
module UploadPage {
  import opened RetryHelper
  import opened Uploaders

  datatype Option<T> = None | Some(value: T)

  /** The selector: a total lookup from the submitted method token to an
      uploader, falling back to the serialized one. */
  function SelectUploader(uploadMethod: string): (u: Uploader)
    ensures u == ParallelizedUploader <==> uploadMethod == "parallel"
    ensures u == AsynchronousUploader <==> uploadMethod == "asynchronous"
    ensures u == SerializedUploader <==> uploadMethod != "parallel" && uploadMethod != "asynchronous"
  {
    match uploadMethod
    case "serial" => SerializedUploader
    case "parallel" => ParallelizedUploader
    case "asynchronous" => AsynchronousUploader
    case _ => SerializedUploader
  }

  /** The post handler's own copy of the same switch. */
  function PostUploaderSwitch(uploadMethod: string): (u: Uploader)
    ensures u == ParallelizedUploader <==> uploadMethod == "parallel"
    ensures u == AsynchronousUploader <==> uploadMethod == "asynchronous"
    ensures u == SerializedUploader <==> uploadMethod != "parallel" && uploadMethod != "asynchronous"
  {
    match uploadMethod
    case "serial" => SerializedUploader
    case "parallel" => ParallelizedUploader
    case "asynchronous" => AsynchronousUploader
    case _ => SerializedUploader
  }

  /** The two switches pick the same uploader for every token. */
  lemma SwitchesAgree(uploadMethod: string)
    ensures PostUploaderSwitch(uploadMethod) == SelectUploader(uploadMethod)
  {
  }

  const NoFilesMessage := "Please select files to upload."
  const SuccessMessage := "Files uploaded successfully."

  /** The submitted form: the files (None when the collection is null), the
      method token, and the result text shown on the page. */
  datatype ViewModel = ViewModel(files: Option<seq<UploadFile>>, uploadMethod: string, uploadResult: string)

  datatype ModelError = ModelError(key: string, message: string)

  /** How the handler ends: the page is rendered again (with the model errors
      it added and the uploader it invoked, if any), or the uploader's
      exception escapes the handler. */
  datatype PostOutcome =
    | Page(model: ViewModel, modelErrors: seq<ModelError>, invoked: Option<Uploader>)
    | Unhandled(uploader: Uploader, fault: Fault)

  /** The handler calls the uploader without a cancellation token, so no
      retry wait is ever cancelled. */
  function DefaultTokenEnvironment(store: (nat, nat) -> Attempt): (env: Environment)
    ensures forall i: nat, k: nat :: env.store(i, k) == store(i, k) && !env.waitCancelled(i, k)
  {
    Environment(store, (i: nat, k: nat) => false)
  }

  predicate NoFiles(vm: ViewModel)
  {
    vm.files == None || vm.files == Some([])
  }

  /** The post handler. */
  function OnPost(vm: ViewModel, store: (nat, nat) -> Attempt): (r: PostOutcome)
    ensures NoFiles(vm) <==> r == Page(vm, [ModelError("", NoFilesMessage)], None)
    ensures !NoFiles(vm) && r.Page? ==>
      r == Page(vm.(uploadResult := SuccessMessage), [], Some(SelectUploader(vm.uploadMethod)))
    ensures r.Unhandled? ==>
      r.uploader == SelectUploader(vm.uploadMethod)
      && UploadFiles(SelectUploader(vm.uploadMethod), vm.files.value, DefaultTokenEnvironment(store)) == Threw(r.fault)
    ensures !NoFiles(vm) ==>
      (r.Page? <==> UploadFiles(SelectUploader(vm.uploadMethod), vm.files.value, DefaultTokenEnvironment(store)) == Completed)
  {
    if NoFiles(vm) then Page(vm, [ModelError("", NoFilesMessage)], None)
    else
      var uploader := PostUploaderSwitch(vm.uploadMethod);
      SwitchesAgree(vm.uploadMethod);
      match UploadFiles(uploader, vm.files.value, DefaultTokenEnvironment(store))
      case Completed => Page(vm.(uploadResult := SuccessMessage), [], Some(uploader))
      case Threw(f) => Unhandled(uploader, f)
  }

  /** The success message is shown exactly when every submitted file was
      stored within the tries its uploader allows: once for the serialized and
      asynchronous uploaders, up to three times for the parallelized one. */
  lemma OnPostSucceedsIffEveryFileStored(vm: ViewModel, store: (nat, nat) -> Attempt)
    requires !NoFiles(vm)
    ensures var uploader := SelectUploader(vm.uploadMethod);
      OnPost(vm, store).Page?
      <==> forall i: nat :: i < |vm.files.value| ==> FileStored(uploader, DefaultTokenEnvironment(store), i)
  {
    var env := DefaultTokenEnvironment(store);
    UploadFilesCompletesIff(SelectUploader(vm.uploadMethod), vm.files.value, env);
  }
}
