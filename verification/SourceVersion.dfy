/**
Where the repository's code does not do what the code around it is for, the model has both: the code as it is
written, and the code with the one line repaired.
*/
module SourceVersion {
  datatype Version = AsWritten | Repaired
}
